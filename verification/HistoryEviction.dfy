/** What the two eviction loops of the history cache leave behind, stated without loops:
    byte eviction drops the shortest sufficient prefix of the eviction queue, row eviction
    clears the shortest sufficient suffix of the page order. */
module HistoryEviction {
  import opened HistoryPages

  /** The pages left once the first `n` queue entries have been considered: an entry
      removes its page only when that page is unpinned. */
  ghost function Drained(pages: Pages, queue: seq<PageId>, n: nat): Pages
    requires n <= |queue|
  {
    map id | id in pages && !(pages[id].pinCount == 0 && id in queue[..n]) :: pages[id]
  }

  /** The pages after the projections of the unpinned pages listed in `order[n..]` are dropped. */
  ghost function Unprojected(pages: Pages, order: seq<PageId>, n: nat): Pages
    requires n <= |order|
  {
    map id | id in pages ::
      if pages[id].pinCount == 0 && id in order[n..] then pages[id].(materializedRows := 0) else pages[id]
  }

  /** `pages'` and `queue'` result from draining `n` entries, none of them unnecessarily. */
  ghost predicate Draining(pages: Pages, queue: seq<PageId>, max: nat,
                           pages': Pages, queue': seq<PageId>, n: nat) {
    && n <= |queue|
    && queue' == queue[n..]
    && pages' == Drained(pages, queue, n)
    && forall m: nat | m < n :: Sum(Drained(pages, queue, m), PayloadBytes) > max
  }

  /** The shortest drain that meets the byte budget. */
  ghost predicate ShortestDrain(pages: Pages, queue: seq<PageId>, max: nat,
                                pages': Pages, queue': seq<PageId>, n: nat) {
    && Draining(pages, queue, max, pages', queue', n)
    && Sum(pages', PayloadBytes) <= max
  }

  /** `pages'` results from clearing `order[n..]`, no entry of it unnecessarily. */
  ghost predicate Clearing(pages: Pages, order: seq<PageId>, max: nat, pages': Pages, n: nat) {
    && n <= |order|
    && pages' == Unprojected(pages, order, n)
    && forall m: nat | n < m <= |order| :: Sum(Unprojected(pages, order, m), ProjectedRows) > max
  }

  /** The shortest newest-first clearing that meets the row budget. */
  ghost predicate ShortestClear(pages: Pages, order: seq<PageId>, max: nat, pages': Pages, n: nat) {
    && Clearing(pages, order, max, pages', n)
    && Sum(pages', ProjectedRows) <= max
  }

  /** Every page has an order entry, and every unpinned page can be found by byte eviction. */
  ghost predicate QueuesCover(pages: Pages, evictable: seq<PageId>, order: seq<PageId>) {
    && (forall id | id in pages :: id in order)
    && (forall id | id in pages && pages[id].pinCount == 0 :: id in evictable)
  }

  predicate Removable(pages: Pages, id: PageId) {
    id in pages && pages[id].pinCount == 0
  }

  predicate Materialized(pages: Pages, id: PageId) {
    id in pages && pages[id].pinCount == 0 && pages[id].materializedRows > 0
  }

  /** Nothing of a page changed except possibly who pins it. */
  predicate SamePage(p: CachedPage, q: CachedPage) {
    p.next == q.next && p.declaredRows == q.declaredRows && p.payload == q.payload &&
    p.materializedRows == q.materializedRows
  }

  // ---------------------------------------------------------------- byte eviction

  lemma DrainedStep(pages: Pages, queue: seq<PageId>, n: nat)
    requires n < |queue|
    ensures Drained(pages, queue, n + 1) ==
            if Removable(Drained(pages, queue, n), queue[n]) then Drained(pages, queue, n) - {queue[n]}
            else Drained(pages, queue, n)
  {
    assert queue[..n + 1] == queue[..n] + [queue[n]];
    var before, after := Drained(pages, queue, n), Drained(pages, queue, n + 1);
    if Removable(before, queue[n]) {
      assert after == before - {queue[n]};
    } else {
      assert after == before;
    }
  }

  lemma DrainingStart(pages: Pages, queue: seq<PageId>, max: nat)
    ensures Draining(pages, queue, max, pages, queue, 0)
  {
    assert Drained(pages, queue, 0) == pages;
  }

  lemma DrainingStep(pages: Pages, queue: seq<PageId>, max: nat, pages': Pages, queue': seq<PageId>, n: nat)
    requires Draining(pages, queue, max, pages', queue', n)
    requires Sum(pages', PayloadBytes) > max && queue' != []
    ensures Draining(pages, queue, max,
                     if Removable(pages', queue'[0]) then pages' - {queue'[0]} else pages', queue'[1..], n + 1)
  {
    DrainedStep(pages, queue, n);
  }

  /** Draining never touches the pinned totals. */
  lemma {:induction false} DrainedPinned(pages: Pages, queue: seq<PageId>, n: nat)
    requires n <= |queue|
    ensures Sum(Drained(pages, queue, n), PinnedPayload) == Sum(pages, PinnedPayload)
    ensures Sum(Drained(pages, queue, n), PinnedRows) == Sum(pages, PinnedRows)
    decreases n
  {
    if n == 0 {
      assert Drained(pages, queue, n) == pages;
    } else {
      DrainedPinned(pages, queue, n - 1);
      DrainedStep(pages, queue, n - 1);
      var before := Drained(pages, queue, n - 1);
      if Removable(before, queue[n - 1]) {
        SumRemove(before, queue[n - 1], PinnedPayload);
        SumRemove(before, queue[n - 1], PinnedRows);
      }
    }
  }

  /** A queue that covers the unpinned pages, drained to its end, leaves only pinned bytes. */
  lemma DrainedAll(pages: Pages, queue: seq<PageId>)
    requires forall id | id in pages && pages[id].pinCount == 0 :: id in queue
    ensures Sum(Drained(pages, queue, |queue|), PayloadBytes) <= Sum(pages, PinnedPayload)
  {
    assert queue[..|queue|] == queue;
    SumCompare(Drained(pages, queue, |queue|), PayloadBytes, PinnedPayload);
    DrainedPinned(pages, queue, |queue|);
  }

  /** What is left of the queue still covers the unpinned pages that are left. */
  lemma DrainedCovers(pages: Pages, queue: seq<PageId>, order: seq<PageId>, n: nat)
    requires n <= |queue|
    requires QueuesCover(pages, queue, order)
    ensures QueuesCover(Drained(pages, queue, n), queue[n..], order)
  {
    assert queue == queue[..n] + queue[n..];
  }

  lemma DrainingEnd(pages: Pages, queue: seq<PageId>, order: seq<PageId>, max: nat,
                    pages': Pages, queue': seq<PageId>, n: nat)
    requires QueuesCover(pages, queue, order)
    requires Sum(pages, PinnedPayload) <= max
    requires Draining(pages, queue, max, pages', queue', n)
    requires Sum(pages', PayloadBytes) <= max || queue' == []
    ensures ShortestDrain(pages, queue, max, pages', queue', n)
    ensures QueuesCover(pages', queue', order)
  {
    DrainedAll(pages, queue);
    DrainedCovers(pages, queue, order, n);
  }

  /** The byte budget is met by the time the first `k` queue entries have been considered. */
  ghost predicate MetBy(pages: Pages, queue: seq<PageId>, max: nat, k: nat)
    requires k <= |queue|
  {
    exists m: nat :: m <= k && Sum(Drained(pages, queue, m), PayloadBytes) <= max
  }

  /** An unpinned page queued last, and fitting beside the pinned pages, outlives its own drain
      exactly if the budget is met before any older queue entry that names it. */
  lemma NewestSurvives(pages: Pages, queue: seq<PageId>, id: PageId, max: nat,
                       pages': Pages, queue': seq<PageId>, n: nat)
    requires id in pages && pages[id].pinCount == 0
    requires forall x | x in pages && pages[x].pinCount == 0 && x != id :: x in queue
    requires Sum(pages, PinnedPayload) + |pages[id].payload| <= max
    requires ShortestDrain(pages, queue + [id], max, pages', queue', n)
    ensures id in pages' <==> forall k | 0 <= k < |queue| && queue[k] == id :: MetBy(pages, queue + [id], max, k)
  {
    var q := queue + [id];
    NewestFits(pages, queue, id, max);
    assert n <= |queue|;
    assert q[..n] == queue[..n];
    assert forall k: nat | k <= |queue| :: MetBy(pages, q, max, k) <==> n <= k;
    hide MetBy;
    if id in queue[..n] {
      var k :| 0 <= k < n && queue[..n][k] == id;
      assert queue[k] == id;
    }
  }

  /** All older entries drained, what is left fits. */
  lemma NewestFits(pages: Pages, queue: seq<PageId>, id: PageId, max: nat)
    requires id in pages && pages[id].pinCount == 0
    requires forall x | x in pages && pages[x].pinCount == 0 && x != id :: x in queue
    requires Sum(pages, PinnedPayload) + |pages[id].payload| <= max
    ensures Sum(Drained(pages, queue + [id], |queue|), PayloadBytes) <= max
  {
    var q := queue + [id];
    var rest := Drained(pages, q, |queue|);
    assert q[..|queue|] == queue;
    DrainedPinned(pages, q, |queue|);
    if id in rest {
      SumRemove(rest, id, PayloadBytes);
      SumRemove(rest, id, PinnedPayload);
      SumCompare(rest - {id}, PayloadBytes, PinnedPayload);
    } else {
      SumCompare(rest, PayloadBytes, PinnedPayload);
    }
  }

  // ---------------------------------------------------------------- row eviction

  /** Pages with equal weights, page by page, have equal sums. */
  lemma {:induction false} SumSame(pages: Pages, pages': Pages, w: CachedPage -> nat)
    requires pages.Keys == pages'.Keys
    requires forall id | id in pages :: w(pages[id]) == w(pages'[id])
    ensures Sum(pages, w) == Sum(pages', w)
    decreases |pages|
  {
    if pages != map[] {
      var id :| id in pages;
      SumRemove(pages, id, w);
      SumRemove(pages', id, w);
      SumSame(pages - {id}, pages' - {id}, w);
    } else {
      assert pages' == map[];
    }
  }

  /** Moving the clearing frontier over order entries that hold no clearable rows changes nothing. */
  lemma UnprojectedIdle(pages: Pages, order: seq<PageId>, m: nat, n: nat)
    requires m <= n <= |order|
    requires forall j | m <= j < n :: !Materialized(Unprojected(pages, order, n), order[j])
    ensures Unprojected(pages, order, m) == Unprojected(pages, order, n)
  {
    assert order[m..] == order[m..n] + order[n..];
    var done := Unprojected(pages, order, n);
    forall id | id in pages && id in order[m..n]
      ensures Unprojected(pages, order, m)[id] == done[id]
    {
      var j :| m <= j < n && order[j] == id;
      assert !Materialized(done, order[j]);
    }
  }

  /** Moving the clearing frontier over one order entry clears exactly that unpinned page. */
  lemma UnprojectedStep(pages: Pages, order: seq<PageId>, k: nat)
    requires k < |order|
    requires Materialized(Unprojected(pages, order, k + 1), order[k])
    ensures Unprojected(pages, order, k) ==
            Unprojected(pages, order, k + 1)[order[k] := Unprojected(pages, order, k + 1)[order[k]].(materializedRows := 0)]
  {
    assert order[k..] == [order[k]] + order[k + 1..];
  }

  lemma ClearingStart(pages: Pages, order: seq<PageId>, max: nat)
    ensures Clearing(pages, order, max, pages, |order|)
  {
    assert Unprojected(pages, order, |order|) == pages;
  }

  /** From the frontier `n`, the next page to clear is the one at `k`. */
  lemma ClearingStep(pages: Pages, order: seq<PageId>, max: nat, pages': Pages, k: nat, n: nat)
    requires Clearing(pages, order, max, pages', n)
    requires Sum(pages', ProjectedRows) > max
    requires k < n && Materialized(pages', order[k])
    requires forall j | k < j < n :: !Materialized(pages', order[j])
    ensures Clearing(pages, order, max, pages'[order[k] := pages'[order[k]].(materializedRows := 0)], k)
  {
    forall m: nat | k < m <= n
      ensures Unprojected(pages, order, m) == pages'
    {
      UnprojectedIdle(pages, order, m, n);
    }
    UnprojectedStep(pages, order, k);
  }

  /** Clearing takes projections only. */
  lemma ClearingKeeps(pages: Pages, order: seq<PageId>, max: nat, pages': Pages, n: nat)
    requires Clearing(pages, order, max, pages', n)
    ensures pages'.Keys == pages.Keys
    ensures forall id | id in pages :: pages'[id].pinCount == pages[id].pinCount
  {
  }

  /** Clearing reaches an entry at most once. */
  lemma ClearingBehind(pages: Pages, order: seq<PageId>, max: nat, pages': Pages, n: nat, j: nat)
    requires Clearing(pages, order, max, pages', n)
    requires n <= j < |order|
    ensures !Materialized(pages', order[j])
  {
    assert order[j] in order[n..];
  }
}
