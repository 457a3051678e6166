/** Python string operations the scripts use: `str.replace`, the `in`
    substring test, `startswith`-style anchored matching, the lexicographic
    `<` on strings, and `sorted` on a list of strings. */
module Strings {
  import opened Lists

  /** `sub in s`: `sub` occurs somewhere in `s`. */
  predicate Contains(s: string, sub: string) {
    exists i :: 0 <= i <= |s| - |sub| && sub <= s[i..]
  }

  /** Python's `s.replace(pat, rep)`: every non-overlapping occurrence of
      `pat`, scanning left to right, is replaced; an empty `pat` inserts
      `rep` before every character and at the end. */
  function ReplaceAll(s: string, pat: string, rep: string): string
    decreases |s|
  {
    if pat == [] then
      rep + (if s == [] then [] else [s[0]] + ReplaceAll(s[1..], pat, rep))
    else if pat <= s then rep + ReplaceAll(s[|pat|..], pat, rep)
    else if s == [] then []
    else [s[0]] + ReplaceAll(s[1..], pat, rep)
  }

  /** Replacing one character by another maps the string position by position. */
  lemma {:induction false} ReplaceCharPointwise(s: string, c: char, d: char)
    ensures |ReplaceAll(s, [c], [d])| == |s|
    ensures forall i :: 0 <= i < |s| ==>
      ReplaceAll(s, [c], [d])[i] == if s[i] == c then d else s[i]
  {
    if s != [] {
      ReplaceCharPointwise(s[1..], c, d);
      var r := ReplaceAll(s, [c], [d]);
      var tail := ReplaceAll(s[1..], [c], [d]);
      if s[0] == c {
        assert [c] <= s;
        assert r == [d] + tail;
      } else {
        assert r == [s[0]] + tail;
      }
      forall i | 0 < i < |s| ensures r[i] == if s[i] == c then d else s[i] {
        assert r[i] == tail[i - 1];
      }
    }
  }

  /** No occurrence of `pat` starts before position |a|: the prefix `a` is
      copied unchanged. */
  lemma {:induction false} ReplaceSkip(a: string, b: string, pat: string, rep: string)
    requires pat != []
    requires forall i :: 0 <= i < |a| ==> !(pat <= (a + b)[i..])
    ensures ReplaceAll(a + b, pat, rep) == a + ReplaceAll(b, pat, rep)
  {
    if a != [] {
      var ab := a + b;
      assert !(pat <= ab) by { assert ab[0..] == ab; }
      ReplaceNoMatchAtFront(ab, pat, rep);
      NoMatchInTail(a, b, pat);
      ReplaceSkip(a[1..], b, pat, rep);
      TailOfConcat(a, b);
      ConsRegroup(a, ReplaceAll(b, pat, rep));
    } else {
      assert a + b == b;
    }
  }

  lemma ConsRegroup(a: string, r: string)
    requires a != []
    ensures [a[0]] + (a[1..] + r) == a + r
  {
    assert a == [a[0]] + a[1..];
  }

  lemma TailOfConcat(a: string, b: string)
    requires a != []
    ensures (a + b)[1..] == a[1..] + b
  {
  }

  /** Dropping the first character keeps a prefix free of occurrences. */
  lemma NoMatchInTail(a: string, b: string, pat: string)
    requires a != []
    requires forall i :: 0 <= i < |a| ==> !(pat <= (a + b)[i..])
    ensures forall i :: 0 <= i < |a[1..]| ==> !(pat <= (a[1..] + b)[i..])
  {
    forall i | 0 <= i < |a[1..]| ensures !(pat <= (a[1..] + b)[i..]) {
      assert (a[1..] + b)[i..] == (a + b)[i + 1..];
    }
  }

  /** Without an occurrence at the front, the first character is copied. */
  lemma ReplaceNoMatchAtFront(s: string, pat: string, rep: string)
    requires pat != [] && s != [] && !(pat <= s)
    ensures ReplaceAll(s, pat, rep) == [s[0]] + ReplaceAll(s[1..], pat, rep)
  {
  }

  /** A prefix that does not contain the first character of `pat` is copied
      unchanged. */
  lemma ReplaceSkipNoHead(a: string, b: string, pat: string, rep: string)
    requires pat != [] && pat[0] !in a
    ensures ReplaceAll(a + b, pat, rep) == a + ReplaceAll(b, pat, rep)
  {
    forall i | 0 <= i < |a| ensures !(pat <= (a + b)[i..]) {
      assert (a + b)[i..][0] == a[i];
    }
    ReplaceSkip(a, b, pat, rep);
  }

  /** A string without the first character of `pat` is unchanged. */
  lemma ReplaceAbsent(s: string, pat: string, rep: string)
    requires pat != [] && pat[0] !in s
    ensures ReplaceAll(s, pat, rep) == s
  {
    ReplaceSkipNoHead(s, [], pat, rep);
    assert s + [] == s;
  }

  /** An occurrence at the front is replaced and scanning resumes after it. */
  lemma ReplaceAtFront(b: string, pat: string, rep: string)
    requires pat != []
    ensures ReplaceAll(pat + b, pat, rep) == rep + ReplaceAll(b, pat, rep)
  {
    assert (pat + b)[|pat|..] == b;
  }

  /** Strings that differ in a same-length front part differ. */
  lemma FrontsDiffer(p: string, q: string, x: string, y: string)
    requires |p| == |q| && p != q
    ensures p + x != q + y
  {
    assert (p + x)[..|p|] == p && (q + y)[..|q|] == q;
  }

  /** Strings that differ in a same-length end part differ. */
  lemma EndsDiffer(x: string, y: string, s: string, t: string)
    requires |s| == |t| && s != t
    ensures x + s != y + t
  {
    assert (x + s)[|x|..] == s && (y + t)[|y|..] == t;
  }

  /** Two groupings of a five-part concatenation. */
  lemma RegroupTail(a: string, b: string, c: string, d: string, e: string)
    ensures a + ((b + c) + (d + e)) == a + b + c + d + e
  {
  }

  lemma RegroupMiddle(a: string, b: string, c: string, d: string, e: string)
    ensures a + b + (c + d) + e == (a + b) + (c + (d + e))
  {
  }

  /** A character of the first part of a four-part path. */
  lemma CharOfFirstPart(d: string, a: string, b: string, c: string, k: nat)
    requires k < |d|
    ensures (d + a + b + c)[k] == d[k]
  {
  }

  /** A character of the second part of a four-part path. */
  lemma CharOfSecondPart(d: string, a: string, b: string, c: string, k: nat)
    requires k < |a|
    ensures (d + a + b + c)[|d| + k] == a[k]
  {
  }

  /** Equal strings with the same front and end have the same middle. */
  lemma MiddleEqual(a: string, x: string, y: string, s: string)
    requires a + x + s == a + y + s
    ensures x == y
  {
    assert |x| == |y|;
    assert (a + x + s)[|a|..|a| + |x|] == x;
    assert (a + y + s)[|a|..|a| + |y|] == y;
  }

  /** Python's `a < b` on strings: code point by code point, a proper prefix
      first. */
  predicate Less(a: string, b: string)
    decreases |a|
  {
    if a == [] then b != []
    else if b == [] then false
    else if a[0] != b[0] then a[0] < b[0]
    else Less(a[1..], b[1..])
  }

  /** Strings are ordered by their first differing character. */
  lemma {:induction false} LessAtFirstDifference(a: string, b: string, k: nat)
    requires k < |a| && k < |b| && a[..k] == b[..k] && a[k] < b[k]
    ensures Less(a, b)
  {
    if k > 0 {
      assert a[0] == a[..k][0] == b[..k][0] == b[0];
      assert a[1..][..k - 1] == a[..k][1..] == b[..k][1..] == b[1..][..k - 1];
      LessAtFirstDifference(a[1..], b[1..], k - 1);
    }
  }

  predicate LessEq(a: string, b: string) {
    a == b || Less(a, b)
  }

  lemma {:induction false} LessIrreflexive(a: string)
    ensures !Less(a, a)
  {
    if a != [] {
      LessIrreflexive(a[1..]);
    }
  }

  lemma {:induction false} LessTransitive(a: string, b: string, c: string)
    requires Less(a, b) && Less(b, c)
    ensures Less(a, c)
  {
    if a != [] && a[0] == b[0] && b[0] == c[0] {
      LessTransitive(a[1..], b[1..], c[1..]);
    }
  }

  /** Any two different strings are ordered one way or the other. */
  lemma {:induction false} LessTotal(a: string, b: string)
    ensures a == b || Less(a, b) || Less(b, a)
  {
    if a != [] && b != [] && a[0] == b[0] {
      LessTotal(a[1..], b[1..]);
      if a[1..] == b[1..] {
        assert a == [a[0]] + a[1..] && b == [b[0]] + b[1..];
      }
    }
  }

  lemma LessAsymmetric(a: string, b: string)
    ensures !(Less(a, b) && Less(b, a))
  {
    if Less(a, b) && Less(b, a) {
      LessTransitive(a, b, a);
      LessIrreflexive(a);
    }
  }

  lemma LessEqTransitive(a: string, b: string, c: string)
    requires LessEq(a, b) && LessEq(b, c)
    ensures LessEq(a, c)
  {
    if a != b && b != c {
      LessTransitive(a, b, c);
    }
  }

  predicate Sorted(s: seq<string>) {
    forall i, j :: 0 <= i < j < |s| ==> LessEq(s[i], s[j])
  }

  /** Puts `x` before the first element that is not below it. */
  function Insert(x: string, s: seq<string>): (r: seq<string>)
    requires Sorted(s)
    ensures Sorted(r)
    ensures multiset(r) == multiset(s) + multiset{x}
  {
    if s == [] then [x]
    else if LessEq(x, s[0]) then
      FirstIsLeast(x, s);
      ConsSorted(x, s);
      [x] + s
    else
      var tail := Insert(x, s[1..]);
      assert s == [s[0]] + s[1..];
      HeadBelowInserted(x, s, tail);
      ConsSorted(s[0], tail);
      [s[0]] + tail
  }

  /** An element below the head of a sorted list is below all of it. */
  lemma FirstIsLeast(x: string, s: seq<string>)
    requires Sorted(s) && s != [] && LessEq(x, s[0])
    ensures forall j :: 0 <= j < |s| ==> LessEq(x, s[j])
  {
    forall j | 0 < j < |s| ensures LessEq(x, s[j]) {
      LessEqTransitive(x, s[0], s[j]);
    }
  }

  /** A sorted list stays sorted behind an element below all of it. */
  lemma ConsSorted(h: string, t: seq<string>)
    requires Sorted(t)
    requires forall j :: 0 <= j < |t| ==> LessEq(h, t[j])
    ensures Sorted([h] + t)
  {
    var r := [h] + t;
    forall i, j | 0 <= i < j < |r| ensures LessEq(r[i], r[j]) {
      assert r[j] == t[j - 1];
      if i > 0 {
        assert r[i] == t[i - 1];
      }
    }
  }

  /** When `x` goes past the head, the head stays below the rest. */
  lemma HeadBelowInserted(x: string, s: seq<string>, tail: seq<string>)
    requires Sorted(s) && s != [] && !LessEq(x, s[0])
    requires multiset(tail) == multiset(s[1..]) + multiset{x}
    ensures forall j :: 0 <= j < |tail| ==> LessEq(s[0], tail[j])
  {
    LessTotal(x, s[0]);
    forall j | 0 <= j < |tail| ensures LessEq(s[0], tail[j]) {
      var y := tail[j];
      assert y in multiset(tail);
      if y != x {
        assert y in multiset(s[1..]);
        var k :| 0 <= k < |s[1..]| && s[1..][k] == y;
        assert s[k + 1] == y;
      }
    }
  }

  /** Python's `sorted(s)` on a list of strings: the sorted rearrangement. */
  function Sort(s: seq<string>): (r: seq<string>)
    ensures Sorted(r)
    ensures multiset(r) == multiset(s)
  {
    if s == [] then []
    else
      assert s == [s[0]] + s[1..];
      Insert(s[0], Sort(s[1..]))
  }

  /** A sorted list is determined by its elements: whatever sorts the same
      values produces the same list, so `Sort` is Python's `sorted`. */
  lemma {:induction false} SortedUnique(a: seq<string>, b: seq<string>)
    requires Sorted(a) && Sorted(b) && multiset(a) == multiset(b)
    ensures a == b
  {
    if a != [] {
      SortedSameHead(a, b);
      SameTailElements(a, b);
      SortedUnique(a[1..], b[1..]);
      assert a == [a[0]] + a[1..] && b == [b[0]] + b[1..];
    }
  }

  /** Sorted lists with the same elements start with the same one. */
  lemma SortedSameHead(a: seq<string>, b: seq<string>)
    requires Sorted(a) && Sorted(b) && multiset(a) == multiset(b) && a != []
    ensures b != [] && a[0] == b[0]
  {
    assert |b| == |a| by { assert |multiset(a)| == |multiset(b)|; }
    assert a[0] in multiset(b) && b[0] in multiset(a);
    var i :| 0 <= i < |b| && b[i] == a[0];
    var j :| 0 <= j < |a| && a[j] == b[0];
    assert LessEq(b[0], a[0]) && LessEq(a[0], b[0]);
    LessAsymmetric(a[0], b[0]);
  }

  /** Removing equal heads leaves equal multisets. */
  lemma SameTailElements(a: seq<string>, b: seq<string>)
    requires multiset(a) == multiset(b) && a != [] && b != [] && a[0] == b[0]
    ensures multiset(a[1..]) == multiset(b[1..])
  {
    assert a == [a[0]] + a[1..] && b == [b[0]] + b[1..];
    assert multiset(a[1..]) == multiset(a) - multiset{a[0]};
    assert multiset(b[1..]) == multiset(b) - multiset{b[0]};
  }

  /** Keeping some elements of a sorted list keeps it sorted. */
  lemma {:induction false} FilterSorted(s: seq<string>, p: string -> bool)
    requires Sorted(s)
    ensures Sorted(Filter(s, p))
  {
    if s != [] {
      FilterSorted(s[1..], p);
      var f := Filter(s[1..], p);
      FilterMembers(s[1..], p);
      if p(s[0]) {
        var r := [s[0]] + f;
        forall j | 0 < j < |r| ensures LessEq(s[0], r[j]) {
          assert r[j] == f[j - 1];
          assert r[j] in f;
          var k :| 0 <= k < |s[1..]| && s[1..][k] == r[j];
          assert s[k + 1] == r[j];
        }
      }
    }
  }
}
