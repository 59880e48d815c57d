/** A page accepted again, sixty-five pages later, can be evicted by its own acceptance: one run
    of the cache, call by call, in which that happens. */
module HistoryStale {
  import opened Prelude
  import opened HistoryPages
  import opened HistoryEviction
  import opened HistoryLoad
  import opened HistoryStore
  import opened HistoryCaches

  const LIMITS := Config(100, 100, 100, 100, 100)
  const AGAIN := PageId([1], 1)
  const ANCHOR: AnchorId := 0

  /** The page in question fills the byte budget alone. */
  function Repeat(): Page { Page(AGAIN, Some([2]), 0, seq(100, _ => 9)) }

  /** The pages in between, one byte each; the last one leads back to the first cursor. */
  function Newer(i: nat): Page
    requires 1 <= i <= WINDOW
  {
    Page(PageId([2], i), Some(if i == WINDOW then [1] else [2]), 0, [7])
  }

  ghost function Log(n: nat): seq<Page>
    requires n <= WINDOW
  {
    [Repeat()] + seq(n, i requires 0 <= i < n => Newer(i + 1))
  }

  lemma LogGrows(n: nat)
    requires n < WINDOW
    ensures Log(n + 1) == Log(n) + [Newer(n + 1)]
    ensures LastWith(Log(n), Newer(n + 1).id) < 0
  {
  }

  /** Sixty-four pages on, the first one has left the digest window. */
  lemma LogEnds()
    ensures LastWith(Log(WINDOW), AGAIN) == 0 && |Log(WINDOW)| == WINDOW + 1
  {
    LastWithUnique(Log(WINDOW), AGAIN, 0);
  }

  /** Between two requests, with nothing pinned, after `n` newer pages: the first page is out of the
      cache, and a queue entry left over from it comes first. */
  ghost predicate Stale(c: HistoryCache, n: nat)
    reads c
    requires 1 <= n <= WINDOW
  {
    && c.Valid() && c.config == LIMITS && c.log == Log(n) && Awaits(c.fetch, Successor(Newer(n)))
    && c.store.pinnedBytes == c.store.pinnedRows == 0
    && c.store.bytes == n
    && (forall id | id in c.store.pages :: id.cursor == [2])
    && c.store.evictable != [] && c.store.evictable[0] == AGAIN
  }

  predicate Awaits(f: Fetch, id: Option<PageId>) {
    && f.state.Idle? && id.Some?
    && f.nextCursor == Some(id.value.cursor) && f.nextPageSeq == Some(id.value.pageSeq)
  }

  /** Request a page and hand it to the cache as it arrives. */
  method AcceptNext(c: HistoryCache, p: Page) returns (check: Result<PageCheck, CacheError>, r: Result<PageId, CacheError>)
    requires c.Valid() && c.config == LIMITS && Awaits(c.fetch, Some(p.id)) && p.id.pageSeq < U64_MAX
    requires c.store.pinnedBytes == c.store.pinnedRows == 0
    requires p.rows == 0 && 0 < |p.payload| <= 100 && c.IsReplayedPage(p) == Ok(false)
    modifies c
    ensures c.Valid()
    ensures check == Ok(New) && r == Ok(p.id)
    ensures c.log == old(c.log) + [p]
    ensures p.next.Some? ==> Awaits(c.fetch, Successor(p))
    ensures Evicted(Inserted(old(c.store), p, 0, old(c.log), c.digest), c.store, 100, 100)
    ensures LastWith(old(c.log), p.id) < 0 ==> p.id in c.store.pages
  {
    hide StoreSound, OrderFits, NonEmpty, OrderBounded, Evicted, Inserted, Digests, Recent, LastWith;
    var cursor := c.BeginFetch();
    c.CheckMeans(p);
    check := c.CheckPage(p);
    r := c.AcceptPage(p, 0);
  }

  // ---------------------------------------------------------------- the first page, pinned and unpinned

  lemma {:induction false} SumNone(pages: Pages, w: CachedPage -> nat)
    requires forall id | id in pages :: w(pages[id]) == 0
    ensures Sum(pages, w) == 0
    decreases |pages|
  {
    if pages != map[] {
      var id :| id in pages;
      SumRemove(pages, id, w);
      SumNone(pages - {id}, w);
    }
  }

  lemma NothingPinned(s: Store)
    requires StoreTotals(s) && PinsMatch(s.pages, s.anchors) && s.anchors == map[]
    ensures s.pinnedBytes == s.pinnedRows == 0
    ensures forall id | id in s.pages :: s.pages[id].pinCount == 0
  {
    forall id | id in s.pages
      ensures s.pages[id].pinCount == 0
    {
      assert Holders(s.anchors, id) == {};
    }
    SumNone(s.pages, PinnedPayload);
    SumNone(s.pages, PinnedRows);
  }

  /** A single cached page weighs what its payload does. */
  lemma AloneWeighs(s: Store, id: PageId)
    requires StoreTotals(s) && s.pages.Keys == {id}
    ensures s.bytes == |s.pages[id].payload|
  {
    SumRemove(s.pages, id, PayloadBytes);
    assert s.pages - {id} == map[];
  }

  /** The queue grows by one entry when the only pin of the only page goes. */
  lemma QueuedAgain(pages: Pages, before: seq<PageId>, after: seq<PageId>)
    requires Freed(pages, {AGAIN}, before, after) && AGAIN in pages && pages[AGAIN].pinCount == 1
    ensures after == before + [AGAIN]
  {
    var more := after[|before|..];
    assert AGAIN in more;
    DistinctFits(more, {AGAIN});
    assert after == before + more;
  }

  lemma NothingQueued(pages: Pages, before: seq<PageId>, after: seq<PageId>)
    requires Freed(pages, {}, before, after)
    ensures after == before
  {
    var more := after[|before|..];
    DistinctFits(more, {});
    assert after == before + more;
  }

  lemma HeldOnce(s: Store)
    requires PinsMatch(s.pages, s.anchors) && s.anchors == map[ANCHOR := {AGAIN}] && AGAIN in s.pages
    ensures s.pages[AGAIN].pinCount == 1
  {
    assert Holders(s.anchors, AGAIN) == {ANCHOR};
  }

  lemma FirstStays(s': Store, digest: Bytes -> Digest)
    requires Evicted(Inserted(Empty(), Repeat(), 0, [], digest), s', 100, 100)
    ensures s'.pages == map[AGAIN := Fresh(Repeat(), 0)] && s'.evictable == [AGAIN] && s'.anchors == map[]
  {
    hide Digests, Recent, AccountedBytes, Evicted;
    EmptyTotals();
    InsertedTotals(Empty(), Repeat(), 0);
    EvictedIdle(Inserted(Empty(), Repeat(), 0, [], digest), s', 100, 100);
  }

  lemma Unseen(c: HistoryCache, p: Page)
    requires c.Valid() && LastWith(c.log, p.id) < 0
    ensures c.IsReplayedPage(p) == Ok(false)
  {
    c.ReplayRefines(p);
  }

  /** One page cached, unpinned again, and queued twice. */
  ghost predicate QueuedTwice(c: HistoryCache)
    reads c
  {
    && c.Valid() && c.config == LIMITS && c.log == Log(0) && Awaits(c.fetch, Some(PageId([2], 1)))
    && c.store.pinnedBytes == c.store.pinnedRows == 0
    && c.store.pages.Keys == {AGAIN} && c.store.pages[AGAIN].payload == Repeat().payload
    && c.store.pages[AGAIN].pinCount == 0
    && c.store.evictable == [AGAIN, AGAIN]
  }

  method AcceptFirst(digest: Bytes -> Digest) returns (c: HistoryCache)
    ensures fresh(c) && c.digest == digest && c.Valid() && c.config == LIMITS
    ensures c.log == Log(0) && Awaits(c.fetch, Some(PageId([2], 1)))
    ensures c.store.pages == map[AGAIN := Fresh(Repeat(), 0)] && c.store.evictable == [AGAIN] && c.store.anchors == map[]
  {
    hide StoreSound, OrderFits, NonEmpty, OrderBounded, WithinBudget, Evicted, Digests, Recent;
    c := new HistoryCache(LIMITS, Some([1]), digest);
    Unseen(c, Repeat());
    var _, _ := AcceptNext(c, Repeat());
    FirstStays(c.store, digest);
    assert c.log == Log(0);
  }

  method PinFirst(c: HistoryCache)
    requires c.Valid() && c.config == LIMITS
    requires c.store.pages == map[AGAIN := Fresh(Repeat(), 0)] && c.store.evictable == [AGAIN] && c.store.anchors == map[]
    modifies c`store
    ensures c.Valid() && c.store.anchors == map[ANCHOR := {AGAIN}] && c.store.evictable == [AGAIN]
    ensures c.store.pages.Keys == {AGAIN} && c.store.pages[AGAIN].payload == Repeat().payload
  {
    hide StoreSound, OrderFits, NonEmpty, OrderBounded, WithinBudget, Freed, Normal, FetchValid, ViewportValid;
    ghost var s0 := c.store;
    var err := c.RegisterAnchorPages(ANCHOR, {AGAIN});
    NothingQueued(s0.pages, s0.evictable, c.store.evictable);
  }

  /** Pinning the page once and letting it go queues it a second time. */
  method Prepare(digest: Bytes -> Digest) returns (c: HistoryCache)
    ensures fresh(c) && c.digest == digest && QueuedTwice(c)
  {
    hide StoreSound, OrderFits, NonEmpty, OrderBounded, WithinBudget, Totals, PinsMatch, Freed, Normal, FetchValid, ViewportValid;
    c := AcceptFirst(digest);
    PinFirst(c);
    ghost var s1 := c.store;
    StoreParts(s1, c.log, false, digest);
    HeldOnce(s1);
    c.RemoveAnchor(ANCHOR);
    StoreParts(c.store, c.log, false, digest);
    QueuedAgain(s1.pages, s1.evictable, c.store.evictable);
    assert c.store.anchors == map[];
    NothingPinned(c.store);
  }

  // ---------------------------------------------------------------- the pages in between

  /** The first newer page drives the first one out, by the older of its two entries. */
  lemma FirstEvicted(s: Store, s': Store, digest: Bytes -> Digest)
    requires StoreTotals(s) && StoreTotals(s')
    requires s.pages.Keys == {AGAIN} && |s.pages[AGAIN].payload| == 100 && s.pages[AGAIN].pinCount == 0
    requires s.evictable == [AGAIN, AGAIN]
    requires Evicted(Inserted(s, Newer(1), 0, Log(0), digest), s', 100, 100)
    ensures s'.pages.Keys == {Newer(1).id} && s'.bytes == 1 && s'.evictable == [AGAIN, Newer(1).id]
    ensures s'.pinnedBytes == s.pinnedBytes && s'.pinnedRows == s.pinnedRows
  {
    hide Digests, Recent, AccountedBytes, Totals, Sum;
    var p := Newer(1);
    var t := Inserted(s, p, 0, Log(0), digest);
    AloneWeighs(s, AGAIN);
    InsertedTotals(s, p, 0);
    EvictedProtects(t, s', 100, 100);
    var mid, n: nat, m: nat :|
      && ShortestDrain(t.pages, t.evictable, 100, mid, s'.evictable, n)
      && ShortestClear(mid, s'.order, 100, s'.pages, m);
    DrainsOne(t.pages, t.evictable, mid, s'.evictable, n);
    ClearingKeeps(mid, s'.order, 100, s'.pages, m);
    AloneWeighs(s', p.id);
  }

  lemma DrainsOne(pages: Pages, queue: seq<PageId>, pages': Pages, queue': seq<PageId>, n: nat)
    requires pages.Keys == {AGAIN, Newer(1).id} && queue == [AGAIN, AGAIN, Newer(1).id]
    requires pages[AGAIN].pinCount == 0 && |pages[Newer(1).id].payload| == 1
    requires Sum(pages, PayloadBytes) == 101
    requires ShortestDrain(pages, queue, 100, pages', queue', n)
    ensures pages'.Keys == {Newer(1).id} && queue' == [AGAIN, Newer(1).id]
  {
    var rest := Drained(pages, queue, 1);
    assert queue[..1] == [AGAIN];
    assert rest.Keys == {Newer(1).id};
    SumRemove(rest, Newer(1).id, PayloadBytes);
    assert rest - {Newer(1).id} == map[];
    assert Drained(pages, queue, 0) == pages;
    assert n == 1;
  }

  method Replace(c: HistoryCache)
    requires QueuedTwice(c)
    modifies c
    ensures Stale(c, 1)
  {
    hide StoreSound, OrderFits, NonEmpty, OrderBounded, Evicted, Totals, PinsMatch, Digests, Recent, Inserted, LastWith;
    LogGrows(0);
    Unseen(c, Newer(1));
    ghost var s0 := c.store;
    StoreParts(s0, c.log, false, c.digest);
    var _, _ := AcceptNext(c, Newer(1));
    StoreParts(c.store, c.log, false, c.digest);
    FirstEvicted(s0, c.store, c.digest);
  }

  /** While the budget lasts, a page is only added. */
  lemma Added(s: Store, s': Store, n: nat, digest: Bytes -> Digest)
    requires 1 <= n < WINDOW && StoreTotals(s) && StoreTotals(s') && s.bytes == n && s.rows <= 100
    requires Newer(n + 1).id !in s.pages
    requires Evicted(Inserted(s, Newer(n + 1), 0, Log(n), digest), s', 100, 100)
    ensures s'.pages.Keys == s.pages.Keys + {Newer(n + 1).id} && s'.bytes == n + 1
    ensures s'.evictable == s.evictable + [Newer(n + 1).id]
    ensures s'.pinnedBytes == s.pinnedBytes && s'.pinnedRows == s.pinnedRows
  {
    hide Digests, Recent, AccountedBytes, Sum;
    InsertedTotals(s, Newer(n + 1), 0);
    EvictedIdle(Inserted(s, Newer(n + 1), 0, Log(n), digest), s', 100, 100);
  }

  method AddOne(c: HistoryCache, n: nat)
    requires 1 <= n < WINDOW && Stale(c, n)
    modifies c
    ensures Stale(c, n + 1)
  {
    hide StoreSound, OrderFits, NonEmpty, OrderBounded, Evicted, Totals, PinsMatch, Digests, Recent, Inserted, LastWith;
    var p := Newer(n + 1);
    LogGrows(n);
    Unseen(c, p);
    c.CheckMeans(p);
    ghost var s0 := c.store;
    StoreParts(s0, c.log, false, c.digest);
    hide HistoryCache.CheckPage, HistoryCache.IsReplayedPage;
    var _, _ := AcceptNext(c, p);
    StoreParts(c.store, c.log, false, c.digest);
    Added(s0, c.store, n, c.digest);
  }

  method Fill(c: HistoryCache)
    requires Stale(c, 1)
    modifies c
    ensures Stale(c, WINDOW)
  {
    hide Stale;
    for n := 1 to WINDOW
      invariant Stale(c, n)
    {
      AddOne(c, n);
    }
  }

  // ---------------------------------------------------------------- the first page again

  /** With the page back in, and nothing drained yet, the budget is exceeded. */
  lemma StillOver(s: Store)
    requires StoreTotals(s) && s.bytes == WINDOW && AGAIN !in s.pages
    ensures !MetBy(s.pages[AGAIN := Fresh(Repeat(), 0)], s.evictable + [AGAIN], 100, 0)
  {
    InsertedTotals(s, Repeat(), 0);
    var pages := s.pages[AGAIN := Fresh(Repeat(), 0)];
    assert Drained(pages, s.evictable + [AGAIN], 0) == pages;
  }

  /** A cache driven through its own calls: the server's chain comes back to its first page, the
      page passes every check as new, is accepted, and is not cached afterwards. So "the newest
      page survives its own acceptance" does fail, for any digest. */
  method NewestEvicted(digest: Bytes -> Digest)
    returns (c: HistoryCache, check: Result<PageCheck, CacheError>, accepted: Result<PageId, CacheError>)
    ensures fresh(c) && c.Valid() && c.log == Log(WINDOW) + [Repeat()]
    ensures check == Ok(New) && accepted == Ok(AGAIN)
    ensures AGAIN !in c.store.pages
  {
    hide StoreSound, OrderFits, NonEmpty, OrderBounded, Evicted, Totals, PinsMatch, Digests, Recent, Inserted, LastWith, MetBy;
    c := Prepare(digest);
    Replace(c);
    Fill(c);
    LogEnds();
    c.ReplayRefines(Repeat());
    ghost var s0 := c.store;
    StoreParts(s0, c.log, false, digest);
    check, accepted := AcceptNext(c, Repeat());
    AcceptSurvives(s0, Repeat(), 0, Log(WINDOW), digest, c.store, 100, 100);
    StillOver(s0);
  }
}
