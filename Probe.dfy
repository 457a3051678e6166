/** The page-probing pattern the download loops share: request pages 1, 2,
    3, ... and stop at the first one that fails. What they keep is the
    longest run of successes at the front. */
module Probe {

  /** The number of leading successes in `ok` (entry i answers page i + 1). */
  function AvailablePrefix(ok: seq<bool>): (k: nat)
    ensures k <= |ok|
    ensures forall i :: 0 <= i < k ==> ok[i]
    ensures k < |ok| ==> !ok[k]
  {
    if ok == [] || !ok[0] then 0 else 1 + AvailablePrefix(ok[1..])
  }

  /** The leading run is the only count with those two properties, so a
      loop that keeps them computes it. */
  lemma AvailablePrefixUnique(ok: seq<bool>, k: nat)
    requires k <= |ok|
    requires forall i :: 0 <= i < k ==> ok[i]
    requires k < |ok| ==> !ok[k]
    ensures k == AvailablePrefix(ok)
  {
  }

  /** Answer for page `page` (from 1) when only the first |ok| pages have an
      answer on record; every later page fails. */
  function Answer(ok: seq<bool>, page: nat): bool {
    1 <= page <= |ok| && ok[page - 1]
  }

  /** Pages 1..n all answered means a leading run of at least n. */
  lemma {:induction false} AvailablePrefixAtLeast(ok: seq<bool>, n: nat)
    requires forall p :: 1 <= p <= n ==> Answer(ok, p)
    ensures AvailablePrefix(ok) >= n
  {
    if n > 0 {
      assert Answer(ok, 1);
      forall p | 1 <= p <= n - 1 ensures Answer(ok[1..], p) {
        assert Answer(ok, p + 1);
      }
      AvailablePrefixAtLeast(ok[1..], n - 1);
    }
  }

  /** With at least page - 1 leading successes, a failure at `page` ends
      the run there. */
  lemma AvailablePrefixStops(ok: seq<bool>, page: nat)
    requires page >= 1 && AvailablePrefix(ok) >= page - 1 && !Answer(ok, page)
    ensures AvailablePrefix(ok) == page - 1
  {
  }

  /** With at least page - 1 leading successes, a success at `page` extends
      the run to it. */
  lemma AvailablePrefixNext(ok: seq<bool>, page: nat)
    requires page >= 1 && AvailablePrefix(ok) >= page - 1 && Answer(ok, page)
    ensures AvailablePrefix(ok) >= page
  {
  }
}
