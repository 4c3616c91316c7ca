/**
 * The results page as `scroll_page` sees it, and the height poll that follows each
 * scroll (app.py:122-130, selenium_test.py:156-164, the same code).
 *
 * The browser is replaced by what it reports: the k-th call of `extract_items` sees
 * the k-th batch of listing elements (`None` when waiting for them fails), and each
 * `scrollHeight` reading takes the next value of `heights`. The clock is replaced by a
 * bound on readings: after `pollLimit` readings without growth (at least one) the
 * elapsed time exceeds the timeout.
 */
module Paging {
  import opened Wrappers
  import opened Listings

  datatype Page = Page(batches: seq<Option<seq<Element>>>, heights: seq<int>, pollLimit: nat)

  /** The outcome of a pagination: the items, the final `found_places`, and how many extractions ran. */
  datatype Scroll = Scroll(items: seq<Listing>, found: set<Key>, calls: nat)

  /** What the k-th extraction sees; past the last batch no listing appears any more. */
  function Batch(batches: seq<Option<seq<Element>>>, k: nat): Option<seq<Element>> {
    if k < |batches| then batches[k] else None
  }

  /** Items that begin with `a + b` begin with `a`, and what follows `a` begins with `b`. */
  lemma PrefixParts(a: seq<Listing>, b: seq<Listing>, c: seq<Listing>)
    requires |a + b| <= |c| && c[..|a + b|] == a + b
    ensures c[..|a|] == a && c[|a|..] == b + c[|a + b|..]
  {
    assert c == c[..|a + b|] + c[|a + b|..];
  }

  /** The r-th `scrollHeight` reading; past the last one the page stops growing. */
  function HeightAt(p: Page, r: nat): int {
    if r < |p.heights| then p.heights[r]
    else if p.heights == [] then 0
    else p.heights[|p.heights| - 1]
  }

  /** Readings a poll takes before it times out: `while True` reads at least once. */
  function Attempts(p: Page): nat {
    if p.pollLimit == 0 then 1 else p.pollLimit
  }

  /**
   * The poll after a scroll: read the height every interval until it exceeds
   * `previous` (the new height is returned) or the timeout passes (`previous` is
   * returned). Readings start at index `cursor`; `next` is the index after the last one.
   */
  method WaitForGrowth(p: Page, previous: int, cursor: nat) returns (height: int, next: nat)
    ensures cursor < next <= cursor + Attempts(p)
    ensures forall r :: cursor <= r < next - 1 ==> HeightAt(p, r) <= previous
    ensures height > previous ==> height == HeightAt(p, next - 1)
    ensures height <= previous ==>
              height == previous && HeightAt(p, next - 1) <= previous
              && next == cursor + Attempts(p)
  {
    height, next := previous, cursor;
    while true
      invariant cursor <= next < cursor + Attempts(p)
      invariant height == previous
      invariant forall r :: cursor <= r < next ==> HeightAt(p, r) <= previous
      decreases cursor + Attempts(p) - next
    {
      var h := HeightAt(p, next);
      next := next + 1;
      if h > previous {
        height := h;
        return;
      } else if next - cursor >= Attempts(p) {
        return;
      }
    }
  }
}
