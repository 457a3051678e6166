/** Sequence vocabulary shared by the scripts: Python's `range`, list
    flattening (`extend` in a loop, nested comprehensions), filtering
    comprehensions, `list.count`, and first-occurrence deduplication through
    a `seen` set. */
module Lists {

  datatype Option<T> = None | Some(value: T)

  /** `[f(x) for x in s]`. */
  function Map<A, B>(s: seq<A>, f: A -> B): (r: seq<B>)
    ensures |r| == |s|
    ensures forall i :: 0 <= i < |s| ==> r[i] == f(s[i])
  {
    if s == [] then [] else [f(s[0])] + Map(s[1..], f)
  }

  /** Mapping one more element appends its image. */
  lemma MapSnoc<A, B>(s: seq<A>, x: A, f: A -> B)
    ensures Map(s + [x], f) == Map(s, f) + [f(x)]
  {
  }

  function Min(a: int, b: int): int {
    if a < b then a else b
  }

  /** Python's `range(lo, hi)`: lo, lo + 1, ..., hi - 1. */
  function Range(lo: int, hi: int): (r: seq<int>)
    ensures |r| == if lo <= hi then hi - lo else 0
    ensures forall i :: 0 <= i < |r| ==> r[i] == lo + i
  {
    seq(if lo <= hi then hi - lo else 0, i => lo + i)
  }

  /** Membership in a range is exactly the interval test. */
  lemma RangeMembers(lo: int, hi: int, x: int)
    ensures x in Range(lo, hi) <==> lo <= x < hi
  {
    if lo <= x < hi {
      assert Range(lo, hi)[x - lo] == x;
    }
  }

  /** Two adjacent ranges concatenate to one range. */
  lemma {:induction false} RangeConcat(a: int, b: int, c: int)
    requires a <= b <= c
    ensures Range(a, b) + Range(b, c) == Range(a, c)
  {
    var l, r := Range(a, b) + Range(b, c), Range(a, c);
    assert |l| == |r|;
    forall i | 0 <= i < |l| ensures l[i] == r[i] {
      if i < b - a {
        assert l[i] == Range(a, b)[i];
      } else {
        assert l[i] == Range(b, c)[i - (b - a)];
      }
    }
  }

  /** Ascending bounds: no bound is below an earlier one. */
  predicate Ascending(bounds: seq<int>) {
    forall i, j :: 0 <= i <= j < |bounds| ==> bounds[i] <= bounds[j]
  }

  /** The ranges between consecutive bounds, as a hardcoded volume table
      writes them: `range(b0, b1), range(b1, b2), ...`. */
  function Consecutive(bounds: seq<int>): (r: seq<seq<int>>)
    requires |bounds| >= 1
    ensures |r| == |bounds| - 1
    ensures forall k :: 0 <= k < |r| ==> r[k] == Range(bounds[k], bounds[k + 1])
  {
    seq(|bounds| - 1, k requires 0 <= k < |bounds| - 1 => Range(bounds[k], bounds[k + 1]))
  }

  /** Ranges between ascending bounds concatenate to the whole range. */
  lemma {:induction false} FlattenConsecutive(bounds: seq<int>)
    requires |bounds| >= 1 && Ascending(bounds)
    ensures Flatten(Consecutive(bounds)) == Range(bounds[0], bounds[|bounds| - 1])
  {
    if |bounds| == 1 {
      assert Consecutive(bounds) == [];
    } else {
      var rest := bounds[1..];
      assert Consecutive(bounds)[1..] == Consecutive(rest);
      FlattenConsecutive(rest);
      RangeConcat(bounds[0], bounds[1], bounds[|bounds| - 1]);
    }
  }

  /** Ranges between ascending bounds share no value. */
  lemma ConsecutiveDisjoint(bounds: seq<int>, i: nat, j: nat, x: int)
    requires |bounds| >= 1 && Ascending(bounds) && i < j < |bounds| - 1
    ensures !(x in Consecutive(bounds)[i] && x in Consecutive(bounds)[j])
  {
    RangeMembers(bounds[i], bounds[i + 1], x);
    RangeMembers(bounds[j], bounds[j + 1], x);
  }

  /** Sequences of one length that agree at every index are equal. */
  lemma SameElements<T>(a: seq<T>, b: seq<T>)
    requires |a| == |b| && forall k :: 0 <= k < |a| ==> a[k] == b[k]
    ensures a == b
  {
  }

  /** No value occurs twice. */
  predicate Distinct<T(==)>(s: seq<T>) {
    forall i, j :: 0 <= i < j < |s| ==> s[i] != s[j]
  }

  /** Two lists without repeats and without a common value join into a
      list without repeats. */
  lemma DistinctConcat<T>(a: seq<T>, b: seq<T>)
    requires Distinct(a) && Distinct(b)
    requires forall x :: x in a ==> x !in b
    ensures Distinct(a + b)
  {
    forall i, j | 0 <= i < j < |a + b| ensures (a + b)[i] != (a + b)[j] {
      if i < |a| && j >= |a| {
        assert (a + b)[i] in a && (a + b)[j] == b[j - |a|];
      }
    }
  }

  /** Keeping some elements of a list without repeats keeps it without repeats. */
  lemma {:induction false} FilterDistinct<T>(s: seq<T>, p: T -> bool)
    requires Distinct(s)
    ensures Distinct(Filter(s, p))
  {
    if s != [] {
      FilterDistinct(s[1..], p);
      FilterMembers(s[1..], p);
      if p(s[0]) {
        assert s[0] !in s[1..];
        DistinctConcat([s[0]], Filter(s[1..], p));
      }
    }
  }

  /** A range never repeats a value. */
  lemma RangeDistinct(lo: int, hi: int)
    ensures Distinct(Range(lo, hi))
  {
  }

  /** Concatenation of the lists of a list of lists, in order: the result of
      calling `extend` on an empty list with each of them in turn. */
  function Flatten<T>(ss: seq<seq<T>>): (r: seq<T>)
    ensures |ss| == 0 ==> r == []
    ensures |ss| > 0 ==> ss[0] <= r
  {
    if ss == [] then [] else ss[0] + Flatten(ss[1..])
  }

  /** A value is in the concatenation exactly when it is in one of the lists. */
  lemma {:induction false} FlattenMembers<T>(ss: seq<seq<T>>, x: T)
    ensures x in Flatten(ss) <==> exists k :: 0 <= k < |ss| && x in ss[k]
  {
    if ss != [] {
      FlattenMembers(ss[1..], x);
      if x in Flatten(ss[1..]) {
        var k :| 0 <= k < |ss[1..]| && x in ss[1..][k];
        assert x in ss[k + 1];
      }
      if exists k :: 0 <= k < |ss| && x in ss[k] {
        var k :| 0 <= k < |ss| && x in ss[k];
        if k > 0 {
          assert x in ss[1..][k - 1];
        }
      }
    }
  }

  /** Extending by one more list appends that list at the end. */
  lemma {:induction false} FlattenSnoc<T>(ss: seq<seq<T>>, s: seq<T>)
    ensures Flatten(ss + [s]) == Flatten(ss) + s
  {
    if ss == [] {
      assert ss + [s] == [s];
    } else {
      assert (ss + [s])[1..] == ss[1..] + [s];
      FlattenSnoc(ss[1..], s);
    }
  }

  /** The Python list comprehension `[x for x in s if p(x)]`. */
  function Filter<T>(s: seq<T>, p: T -> bool): (r: seq<T>)
    ensures |r| <= |s|
  {
    if s == [] then []
    else if p(s[0]) then [s[0]] + Filter(s[1..], p)
    else Filter(s[1..], p)
  }

  /** A filter keeps exactly the elements that pass. */
  lemma {:induction false} FilterMembers<T>(s: seq<T>, p: T -> bool)
    ensures forall x :: x in Filter(s, p) <==> x in s && p(x)
  {
    if s != [] {
      FilterMembers(s[1..], p);
      assert s == [s[0]] + s[1..];
    }
  }

  /** Filtering one more element appends it exactly when it passes. */
  lemma {:induction false} FilterSnoc<T>(s: seq<T>, x: T, p: T -> bool)
    ensures Filter(s + [x], p) == Filter(s, p) + (if p(x) then [x] else [])
  {
    if s == [] {
      assert [x][1..] == [];
    } else {
      assert (s + [x])[1..] == s[1..] + [x];
      FilterSnoc(s[1..], x, p);
    }
  }

  /** f(1), f(2), ..., f(n): a list numbered from one. */
  function Numbered<T>(f: int -> T, n: nat): (r: seq<T>)
    ensures |r| == n
  {
    if n == 0 then [] else Numbered(f, n - 1) + [f(n)]
  }

  /** Entry i of a list numbered from one is f(i + 1). */
  lemma {:induction false} NumberedAt<T>(f: int -> T, n: nat, i: int)
    requires 0 <= i < n
    ensures Numbered(f, n)[i] == f(i + 1)
  {
    if i < n - 1 {
      NumberedAt(f, n - 1, i);
    }
  }

  /** The union of f(x) over the elements x of s. */
  function UnionOf<T, U>(s: seq<T>, f: T -> set<U>): set<U> {
    if s == [] then {} else UnionOf(s[..|s| - 1], f) + f(s[|s| - 1])
  }

  /** Each element's set is part of the union. */
  lemma {:induction false} UnionOfHas<T, U>(s: seq<T>, f: T -> set<U>, k: nat)
    requires k < |s|
    ensures f(s[k]) <= UnionOf(s, f)
  {
    var n := |s| - 1;
    if k < n {
      UnionOfHas(s[..n], f, k);
      assert s[..n][k] == s[k];
    } else {
      assert k == n;
    }
  }

  /** Everything in the union comes from some element. */
  lemma {:induction false} UnionOfMembers<T, U>(s: seq<T>, f: T -> set<U>, y: U)
    requires y in UnionOf(s, f)
    ensures exists k :: 0 <= k < |s| && y in f(s[k])
  {
    var n := |s| - 1;
    if y !in f(s[n]) {
      UnionOfMembers(s[..n], f, y);
      var k :| 0 <= k < n && y in f(s[..n][k]);
      assert s[..n][k] == s[k];
    }
  }

  /** What no element's set holds, the union does not hold. */
  lemma {:induction false} UnionOfExcludes<T, U>(s: seq<T>, f: T -> set<U>, y: U)
    requires forall k :: 0 <= k < |s| ==> y !in f(s[k])
    ensures y !in UnionOf(s, f)
  {
    if s != [] {
      var n := |s| - 1;
      assert forall k :: 0 <= k < n ==> s[..n][k] == s[k];
      UnionOfExcludes(s[..n], f, y);
    }
  }

  lemma UnionOfTake<T, U>(s: seq<T>, i: nat, f: T -> set<U>)
    requires i < |s|
    ensures UnionOf(s[..i + 1], f) == UnionOf(s[..i], f) + f(s[i])
  {
    assert s[..i + 1][..i] == s[..i];
  }

  lemma TakeAll<T>(s: seq<T>)
    ensures s[..|s|] == s
  {
  }

  lemma AppendAssoc<T>(a: seq<T>, b: seq<T>, c: seq<T>)
    ensures a + (b + c) == (a + b) + c
  {
  }

  lemma TakeSnoc<T>(s: seq<T>, i: nat)
    requires i < |s|
    ensures s[..i + 1] == s[..i] + [s[i]]
  {
  }

  lemma InTake<T>(s: seq<T>, i: nat, x: T)
    requires i < |s|
    ensures x in s[..i + 1] <==> x in s[..i] || x == s[i]
  {
    assert s[..i + 1] == s[..i] + [s[i]];
  }

  lemma MapTake<A, B>(s: seq<A>, i: nat, f: A -> B)
    requires i < |s|
    ensures Map(s[..i + 1], f) == Map(s[..i], f) + [f(s[i])]
  {
    assert s[..i + 1] == s[..i] + [s[i]];
    MapSnoc(s[..i], s[i], f);
  }

  lemma FilterTake<T>(s: seq<T>, i: nat, p: T -> bool)
    requires i < |s|
    ensures Filter(s[..i + 1], p) == Filter(s[..i], p) + (if p(s[i]) then [s[i]] else [])
  {
    assert s[..i + 1] == s[..i] + [s[i]];
    FilterSnoc(s[..i], s[i], p);
  }

  /** One more element of `s` through a filter and a map: its image is
      appended exactly when it passes. */
  lemma FilterMapTake<A, B>(s: seq<A>, i: nat, p: A -> bool, f: A -> B)
    requires i < |s|
    ensures Map(Filter(s[..i + 1], p), f) == Map(Filter(s[..i], p), f) + (if p(s[i]) then [f(s[i])] else [])
  {
    assert s[..i + 1] == s[..i] + [s[i]];
    FilterSnoc(s[..i], s[i], p);
    if p(s[i]) {
      MapSnoc(Filter(s[..i], p), s[i], f);
    } else {
      assert Filter(s[..i], p) + [] == Filter(s[..i], p);
    }
  }

  /** Filters that agree on the elements of `s` keep the same elements. */
  lemma {:induction false} FilterCongruent<T>(s: seq<T>, p: T -> bool, q: T -> bool)
    requires forall x :: x in s ==> p(x) == q(x)
    ensures Filter(s, p) == Filter(s, q)
  {
    if s != [] {
      FilterCongruent(s[1..], p, q);
    }
  }

  /** `a` is obtained from `b` by deleting elements (order is kept). */
  predicate IsSubsequence<T(==)>(a: seq<T>, b: seq<T>)
    decreases |b|
  {
    if a == [] then true
    else if b == [] then false
    else if a[0] == b[0] then IsSubsequence(a[1..], b[1..])
    else IsSubsequence(a, b[1..])
  }

  /** A filter keeps the order of what it keeps. */
  lemma {:induction false} FilterIsSubsequence<T>(s: seq<T>, p: T -> bool)
    ensures IsSubsequence(Filter(s, p), s)
  {
    if s != [] {
      FilterIsSubsequence(s[1..], p);
      if !p(s[0]) && Filter(s[1..], p) != [] {
        var f := Filter(s[1..], p);
        SubsequenceSkip(f, s[1..], s[0]);
      }
    }
  }

  /** Mapping both sides keeps a subsequence one. */
  lemma {:induction false} MapSubsequence<A, B>(a: seq<A>, b: seq<A>, f: A -> B)
    requires IsSubsequence(a, b)
    ensures IsSubsequence(Map(a, f), Map(b, f))
    decreases |b|
  {
    if a != [] {
      assert Map(b, f) == [f(b[0])] + Map(b[1..], f);
      if a[0] == b[0] {
        MapSubsequence(a[1..], b[1..], f);
        assert Map(a, f)[1..] == Map(a[1..], f);
      } else {
        MapSubsequence(a, b[1..], f);
        SubsequenceSkip(Map(a, f), Map(b[1..], f), f(b[0]));
      }
    }
  }

  /** Prepending an element to the larger sequence keeps a subsequence one. */
  lemma {:induction false} SubsequenceSkip<T>(a: seq<T>, b: seq<T>, x: T)
    requires IsSubsequence(a, b)
    ensures IsSubsequence(a, [x] + b)
    decreases |b|, 1
  {
    var xb := [x] + b;
    assert xb[1..] == b;
    if a != [] && a[0] == x {
      // a[1..] is a subsequence of b because a is
      SubsequenceTail(a, b);
    }
  }

  /** Dropping the first element of a subsequence keeps it a subsequence. */
  lemma {:induction false} SubsequenceTail<T>(a: seq<T>, b: seq<T>)
    requires a != [] && IsSubsequence(a, b)
    ensures IsSubsequence(a[1..], b)
    decreases |b|, 0
  {
    if a[0] == b[0] {
      if a[1..] != [] {
        SubsequenceSkip(a[1..], b[1..], b[0]);
        assert [b[0]] + b[1..] == b;
      }
    } else {
      SubsequenceTail(a, b[1..]);
      if a[1..] != [] {
        SubsequenceSkip(a[1..], b[1..], b[0]);
        assert [b[0]] + b[1..] == b;
      }
    }
  }

  /** The set `{x for x in s if s.count(x) > 1}`. */
  function Duplicates<T(==)>(s: seq<T>): (d: set<T>)
    ensures forall x :: x in d ==> x in s
  {
    set x | x in s && multiset(s)[x] > 1
  }

  /** A value counts more than once exactly when it occurs at two positions. */
  lemma {:induction false} CountAboveOne<T>(s: seq<T>, x: T)
    ensures multiset(s)[x] > 1 <==> exists i, j :: 0 <= i < j < |s| && s[i] == x && s[j] == x
  {
    if s != [] {
      var t := s[1..];
      assert s == [s[0]] + t;
      assert multiset(s)[x] == multiset(t)[x] + (if s[0] == x then 1 else 0);
      CountAboveOne(t, x);
      if multiset(s)[x] > 1 {
        if s[0] == x {
          assert x in multiset(t);
          var k :| 0 <= k < |t| && t[k] == x;
          assert s[0] == x && s[k + 1] == x;
        } else {
          var i, j :| 0 <= i < j < |t| && t[i] == x && t[j] == x;
          assert s[i + 1] == x && s[j + 1] == x;
        }
      }
      if exists i, j :: 0 <= i < j < |s| && s[i] == x && s[j] == x {
        var i, j :| 0 <= i < j < |s| && s[i] == x && s[j] == x;
        if i == 0 {
          assert t[j - 1] == x;
          assert x in multiset(t);
        } else {
          assert t[i - 1] == x && t[j - 1] == x;
        }
      }
    }
  }

  /** The duplicate set is empty exactly when no value occurs twice. */
  lemma DuplicatesEmptyIffDistinct<T>(s: seq<T>)
    ensures Duplicates(s) == {} <==> Distinct(s)
  {
    if Duplicates(s) != {} {
      var x :| x in Duplicates(s);
      CountAboveOne(s, x);
    }
    if !Distinct(s) {
      var i, j :| 0 <= i < j < |s| && s[i] == s[j];
      CountAboveOne(s, s[i]);
      assert s[i] in Duplicates(s);
    }
  }

  /** The list a loop over `s` builds when it appends each element that is
      not yet in its `seen` set: first occurrences, in order. */
  function Dedup<T(==)>(s: seq<T>): (r: seq<T>)
  {
    if s == [] then []
    else
      var d := Dedup(s[..|s| - 1]);
      if s[|s| - 1] in d then d else d + [s[|s| - 1]]
  }

  /** One more element is appended exactly when it was not seen before. */
  lemma DedupSnoc<T>(s: seq<T>, x: T)
    ensures Dedup(s + [x]) == if x in Dedup(s) then Dedup(s) else Dedup(s) + [x]
  {
    assert (s + [x])[..|s|] == s;
  }

  /** Deduplication keeps exactly the values of the input, each once. */
  lemma {:induction false} DedupSpec<T>(s: seq<T>)
    ensures Distinct(Dedup(s))
    ensures forall x :: x in Dedup(s) <==> x in s
  {
    if s != [] {
      var init := s[..|s| - 1];
      DedupSpec(init);
      assert s == init + [s[|s| - 1]];
    }
  }

  /** Deduplication keeps the order of first occurrences. */
  lemma {:induction false} DedupIsSubsequence<T>(s: seq<T>)
    ensures IsSubsequence(Dedup(s), s)
  {
    if s != [] {
      var init, last := s[..|s| - 1], s[|s| - 1];
      DedupIsSubsequence(init);
      assert s == init + [last];
      if last !in Dedup(init) {
        SubsequenceSnoc(Dedup(init), init, last);
      } else {
        SubsequenceExtend(Dedup(init), init, last);
      }
    }
  }

  /** The position of the first x in s, or |s| when there is none. */
  function FirstIndex<T(==)>(s: seq<T>, x: T): (k: nat)
    ensures k <= |s|
    ensures k < |s| ==> s[k] == x
    ensures x !in s[..k]
    ensures x in s ==> k < |s|
  {
    if s == [] then 0
    else if s[0] == x then 0
    else
      var k := 1 + FirstIndex(s[1..], x);
      assert s[..k] == [s[0]] + s[1..][..k - 1];
      k
  }

  /** The elements of t come in the order of their first occurrence in s. */
  predicate InFirstOrder<T(==)>(t: seq<T>, s: seq<T>) {
    forall i, j :: 0 <= i < j < |t| ==> FirstIndex(s, t[i]) < FirstIndex(s, t[j])
  }

  /** A value not yet in s has its first occurrence after s. */
  lemma {:induction false} FirstIndexSnoc<T>(s: seq<T>, y: T, x: T)
    ensures FirstIndex(s + [y], x) == if x in s then FirstIndex(s, x) else if x == y then |s| else |s| + 1
  {
    if s != [] {
      assert (s + [y])[1..] == s[1..] + [y];
      FirstIndexSnoc(s[1..], y, x);
      assert x in s <==> x == s[0] || x in s[1..];
    } else {
      assert [y][1..] == [];
    }
  }

  /** Deduplication lists each value at its first occurrence, in order. */
  lemma {:induction false} DedupFirstOrder<T>(s: seq<T>)
    ensures InFirstOrder(Dedup(s), s)
  {
    if s != [] {
      var init, last := s[..|s| - 1], s[|s| - 1];
      assert s == init + [last];
      DedupFirstOrder(init);
      DedupFirstOrderSnoc(init, last);
    }
  }

  /** One more element keeps the order of the values seen so far, and an
      unseen one is appended after all of them. */
  lemma DedupFirstOrderSnoc<T>(init: seq<T>, last: T)
    requires InFirstOrder(Dedup(init), init)
    ensures InFirstOrder(Dedup(init + [last]), init + [last])
  {
    var s, d := init + [last], Dedup(init);
    DedupSnoc(init, last);
    forall i | 0 <= i < |d|
      ensures FirstIndex(s, d[i]) == FirstIndex(init, d[i]) < |init|
    {
      SeenFirstIndex(init, last, d[i]);
    }
    if last !in d {
      DedupSpec(init);
      FirstIndexSnoc(init, last, last);
      var e := d + [last];
      forall i, j | 0 <= i < j < |e|
        ensures FirstIndex(s, e[i]) < FirstIndex(s, e[j])
      {
        assert e[i] == d[i];
        if j < |d| {
          assert e[j] == d[j];
        }
      }
    }
  }

  /** A value already kept keeps its first position when s grows. */
  lemma SeenFirstIndex<T>(init: seq<T>, last: T, x: T)
    requires x in Dedup(init)
    ensures FirstIndex(init + [last], x) == FirstIndex(init, x) < |init|
  {
    DedupSpec(init);
    FirstIndexSnoc(init, last, x);
  }

  /** Deduplicating the elements that pass keeps their first-occurrence
      order in the whole list. */
  lemma DedupFilterFirstOrder<T>(s: seq<T>, p: T -> bool)
    ensures InFirstOrder(Dedup(Filter(s, p)), s)
  {
    var held := Dedup(Filter(s, p));
    DedupFirstOrder(Filter(s, p));
    forall i, j | 0 <= i < j < |held|
      ensures FirstIndex(s, held[i]) < FirstIndex(s, held[j])
    {
      DedupFilterMember(s, p, held[i]);
      DedupFilterMember(s, p, held[j]);
      FilterFirstOrder(s, p, held[i], held[j]);
    }
  }

  lemma DedupFilterMember<T>(s: seq<T>, p: T -> bool, x: T)
    requires x in Dedup(Filter(s, p))
    ensures x in Filter(s, p) && x in s && p(x)
  {
    DedupSpec(Filter(s, p));
    FilterMembers(s, p);
  }

  /** Dedup is the only list that holds each value of s once, in the order
      of first occurrence. */
  lemma DedupUnique<T>(s: seq<T>, t: seq<T>)
    requires Distinct(t) && (forall x :: x in t <==> x in s) && InFirstOrder(t, s)
    ensures t == Dedup(s)
  {
    DedupSpec(s);
    DedupFirstOrder(s);
    FirstOrderUnique(t, Dedup(s), s);
  }

  /** Holding each value once, and in first-occurrence order, leaves no
      choice: two such lists with the same values are equal. */
  lemma {:induction false} FirstOrderUnique<T>(t: seq<T>, u: seq<T>, s: seq<T>)
    requires Distinct(t) && Distinct(u)
    requires forall x :: x in t <==> x in u
    requires InFirstOrder(t, s) && InFirstOrder(u, s)
    ensures t == u
    decreases |t|
  {
    if t == [] {
      assert forall i :: 0 <= i < |u| ==> u[i] in t;
    } else {
      FirstOrderHeads(t, u, s);
      TailsSameMembers(t, u);
      FirstOrderTail(t, s);
      FirstOrderTail(u, s);
      FirstOrderUnique(t[1..], u[1..], s);
      assert t == [t[0]] + t[1..] && u == [u[0]] + u[1..];
    }
  }

  /** Both lists start with the value that occurs first in s. */
  lemma FirstOrderHeads<T>(t: seq<T>, u: seq<T>, s: seq<T>)
    requires t != [] && Distinct(t) && Distinct(u)
    requires forall x :: x in t <==> x in u
    requires InFirstOrder(t, s) && InFirstOrder(u, s)
    ensures u != [] && t[0] == u[0]
  {
    assert t[0] in t;
    var k :| 0 <= k < |u| && u[k] == t[0];
    assert u[0] in u;
    var m :| 0 <= m < |t| && t[m] == u[0];
    HeadFirst(u, s, k);
    HeadFirst(t, s, m);
  }

  /** In first-occurrence order, the head occurs first. */
  lemma HeadFirst<T>(t: seq<T>, s: seq<T>, k: nat)
    requires InFirstOrder(t, s) && k < |t|
    ensures FirstIndex(s, t[0]) <= FirstIndex(s, t[k])
    ensures k != 0 ==> FirstIndex(s, t[0]) < FirstIndex(s, t[k])
  {
  }

  lemma TailsSameMembers<T>(t: seq<T>, u: seq<T>)
    requires t != [] && u != [] && t[0] == u[0] && Distinct(t) && Distinct(u)
    requires forall x :: x in t <==> x in u
    ensures forall x :: x in t[1..] <==> x in u[1..]
  {
    HeadNotInTail(t);
    HeadNotInTail(u);
    forall x
      ensures x in t[1..] <==> x in u[1..]
    {
      assert x in t <==> x == t[0] || x in t[1..] by {
        assert t == [t[0]] + t[1..];
      }
      assert x in u <==> x == u[0] || x in u[1..] by {
        assert u == [u[0]] + u[1..];
      }
    }
  }

  lemma HeadNotInTail<T>(t: seq<T>)
    requires t != [] && Distinct(t)
    ensures t[0] !in t[1..]
  {
    forall a | 0 <= a < |t| - 1
      ensures t[1..][a] != t[0]
    {
      assert t[1..][a] == t[a + 1];
    }
  }

  lemma FirstOrderTail<T>(t: seq<T>, s: seq<T>)
    requires t != [] && Distinct(t) && InFirstOrder(t, s)
    ensures Distinct(t[1..]) && InFirstOrder(t[1..], s)
  {
    forall i, j | 0 <= i < j < |t| - 1
      ensures t[1..][i] != t[1..][j] && FirstIndex(s, t[1..][i]) < FirstIndex(s, t[1..][j])
    {
      assert t[1..][i] == t[i + 1] && t[1..][j] == t[j + 1];
    }
  }

  /** Filtering keeps the relative order of first occurrences. */
  lemma {:induction false} FilterFirstOrder<T>(s: seq<T>, p: T -> bool, x: T, y: T)
    requires x in s && y in s && p(x) && p(y)
    ensures FirstIndex(Filter(s, p), x) < FirstIndex(Filter(s, p), y) <==> FirstIndex(s, x) < FirstIndex(s, y)
  {
    var f := Filter(s, p);
    if s[0] == x || s[0] == y {
      assert f[0] == s[0];
    } else {
      assert x in s[1..] && y in s[1..];
      FilterFirstOrder(s[1..], p, x, y);
      if p(s[0]) {
        assert f == [s[0]] + Filter(s[1..], p);
        assert f[1..] == Filter(s[1..], p);
      }
    }
  }

  /** Appending an element to the larger sequence keeps a subsequence one. */
  lemma {:induction false} SubsequenceExtend<T>(a: seq<T>, b: seq<T>, x: T)
    requires IsSubsequence(a, b)
    ensures IsSubsequence(a, b + [x])
    decreases |b|
  {
    if a != [] && b != [] {
      assert (b + [x])[1..] == b[1..] + [x];
      if a[0] == b[0] {
        SubsequenceExtend(a[1..], b[1..], x);
      } else {
        SubsequenceExtend(a, b[1..], x);
      }
    }
  }

  /** Appending the same element to both keeps a subsequence one. */
  lemma {:induction false} SubsequenceSnoc<T>(a: seq<T>, b: seq<T>, x: T)
    requires IsSubsequence(a, b)
    ensures IsSubsequence(a + [x], b + [x])
    decreases |b|
  {
    if a == [] {
      SubsequenceOfOne(b, x);
      assert a + [x] == [x];
    } else {
      assert b != [];
      assert (a + [x])[1..] == a[1..] + [x];
      assert (b + [x])[1..] == b[1..] + [x];
      if a[0] == b[0] {
        SubsequenceSnoc(a[1..], b[1..], x);
      } else {
        SubsequenceSnoc(a, b[1..], x);
      }
    }
  }

  /** The last element alone is a subsequence. */
  lemma {:induction false} SubsequenceOfOne<T>(b: seq<T>, x: T)
    ensures IsSubsequence([x], b + [x])
    decreases |b|
  {
    if b == [] {
      assert [x][1..] == [];
    } else {
      assert (b + [x])[1..] == b[1..] + [x];
      if b[0] == x {
        assert [x][1..] == [];
      } else {
        SubsequenceOfOne(b[1..], x);
      }
    }
  }
  /** A subsequence of a subsequence is a subsequence. */
  lemma {:induction false} SubsequenceTransitive<T>(a: seq<T>, b: seq<T>, c: seq<T>)
    requires IsSubsequence(a, b) && IsSubsequence(b, c)
    ensures IsSubsequence(a, c)
    decreases |c|
  {
    if a != [] {
      assert b != [] && c != [];
      if b[0] == c[0] {
        if a[0] == b[0] {
          SubsequenceTransitive(a[1..], b[1..], c[1..]);
        } else {
          SubsequenceTransitive(a, b[1..], c[1..]);
        }
      } else {
        SubsequenceTransitive(a, b, c[1..]);
        if a[0] == c[0] {
          SubsequenceTail(a, c[1..]);
        }
      }
    }
  }
}
