/** The retained part of the history cache as one value: its invariant, and what each
    operation keeps of it. */
module HistoryStore {
  import opened Prelude
  import opened HistoryPages
  import opened HistoryEviction

  /** Every page-holding field of the cache. */
  datatype Store = Store(
    pages: Pages,
    order: seq<PageId>,
    evictable: seq<PageId>,
    consumed: seq<ConsumedPage>,
    consumedBytes: nat,
    anchors: Anchors,
    bytes: nat,
    rows: nat,
    pinnedBytes: nat,
    pinnedRows: nat)

  /** The four running totals are the sums they cache. */
  ghost predicate Totals(pages: Pages, bytes: nat, rows: nat, pinnedBytes: nat, pinnedRows: nat) {
    && bytes == Sum(pages, PayloadBytes)
    && rows == Sum(pages, ProjectedRows)
    && pinnedBytes == Sum(pages, PinnedPayload)
    && pinnedRows == Sum(pages, PinnedRows)
  }

  ghost predicate StoreTotals(s: Store) {
    Totals(s.pages, s.bytes, s.rows, s.pinnedBytes, s.pinnedRows)
  }

  /** Each page is pinned once per anchor that holds it, and anchors hold cached pages only. */
  ghost predicate PinsMatch(pages: Pages, anchors: Anchors) {
    && (forall a | a in anchors :: anchors[a] <= pages.Keys)
    && (forall id | id in pages :: pages[id].pinCount == |Holders(anchors, id)|)
  }

  ghost predicate Matches(c: CachedPage, p: Page) {
    c.next == p.next && c.declaredRows == p.rows && c.payload == p.payload
  }

  /** Cached pages carry what was last accepted under their identity. */
  ghost predicate CacheRemembers(pages: Pages, log: seq<Page>) {
    forall id | id in pages ::
      && LastWith(log, id) >= 0
      && Matches(pages[id], log[LastWith(log, id)])
  }

  /** The digest window is the recent end of the log, unless the generation was retired. */
  ghost predicate WindowExact(consumed: seq<ConsumedPage>, bytes: nat, pages: Pages, retired: bool,
                              log: seq<Page>, digest: Bytes -> Digest) {
    && consumed == (if retired then [] else Digests(Recent(log), digest))
    && bytes == AccountedBytes(consumed)
    && DistinctIds(Recent(log))
    && (retired ==> pages == map[])
  }

  /** Both queues name accepted pages only; the order queue names them in the order of their
      acceptance if no identity was ever accepted twice. */
  ghost predicate QueuesName(evictable: seq<PageId>, order: seq<PageId>, log: seq<Page>) {
    && (forall id | id in evictable :: LastWith(log, id) >= 0)
    && (forall id | id in order :: LastWith(log, id) >= 0)
    && (DistinctIds(log) ==> Rising(order, log))
  }

  /** No page is cached without a payload. */
  ghost predicate NonEmpty(pages: Pages) {
    forall id | id in pages :: pages[id].payload != []
  }

  /** The order queue is short whatever the server does. */
  predicate OrderFits(s: Store, maxBytes: nat) {
    |s.order| <= maxBytes + |s.pages| + 64
  }

  /** It is shorter still while no identity is accepted twice. */
  ghost predicate OrderBounded(s: Store, log: seq<Page>) {
    DistinctIds(log) ==> |s.order| <= 2 * |s.pages| + 64
  }

  /** All of the invariant that holds between two eviction runs as well. */
  ghost predicate StoreSound(s: Store, log: seq<Page>, retired: bool, digest: Bytes -> Digest) {
    && Totals(s.pages, s.bytes, s.rows, s.pinnedBytes, s.pinnedRows)
    && PinsMatch(s.pages, s.anchors)
    && QueuesCover(s.pages, s.evictable, s.order)
    && CacheRemembers(s.pages, log)
    && NonEmpty(s.pages)
    && WindowExact(s.consumed, s.consumedBytes, s.pages, retired, log, digest)
    && QueuesName(s.evictable, s.order, log)
  }

  ghost predicate WithinBudget(s: Store, maxBytes: nat, maxRows: nat) {
    s.bytes <= maxBytes && s.rows <= maxRows
  }

  /** The parts of soundness that the eviction and pin loops work with. */
  lemma StoreParts(s: Store, log: seq<Page>, retired: bool, digest: Bytes -> Digest)
    requires StoreSound(s, log, retired, digest)
    ensures Totals(s.pages, s.bytes, s.rows, s.pinnedBytes, s.pinnedRows)
    ensures PinsMatch(s.pages, s.anchors)
    ensures QueuesCover(s.pages, s.evictable, s.order)
    ensures NonEmpty(s.pages)
    ensures DistinctIds(log) ==> Distinct(s.order)
    ensures s.pinnedBytes <= s.bytes && s.pinnedRows <= s.rows
    ensures DistinctIds(Recent(log))
    ensures !retired ==> s.consumed == Digests(Recent(log), digest) && s.consumedBytes == AccountedBytes(s.consumed)
  {
    hide LastWith, Sum;
    PinnedWithin(s);
    if DistinctIds(log) {
      RisingDistinct(s.order, log);
    }
  }

  /** Pinned pages never weigh more than all pages. */
  lemma PinnedWithin(s: Store)
    requires Totals(s.pages, s.bytes, s.rows, s.pinnedBytes, s.pinnedRows)
    ensures s.pinnedBytes <= s.bytes && s.pinnedRows <= s.rows
  {
    SumCompare(s.pages, PinnedPayload, PayloadBytes);
    SumCompare(s.pages, PinnedRows, ProjectedRows);
  }

  lemma EmptyTotals()
    ensures StoreTotals(Empty())
  {
  }

  lemma EmptySound(log: seq<Page>, digest: Bytes -> Digest)
    requires DistinctIds(Recent(log))
    ensures StoreSound(Empty(), log, true, digest)
  {
    hide Sum, LastWith, DistinctIds, Recent, Digests, Distinct, Totals;
    EmptyTotals();
    NoIds(digest);
  }

  lemma StartSound(digest: Bytes -> Digest)
    ensures StoreSound(Empty(), [], false, digest)
  {
    hide Sum, LastWith, DistinctIds, Recent, Digests, Distinct, Totals;
    EmptyTotals();
    NoIds(digest);
  }

  lemma NoIds(digest: Bytes -> Digest)
    ensures Recent([]) == [] && DistinctIds([]) && Digests([], digest) == []
  {
  }

  /** The store of a new or a retired generation. */
  function Empty(): Store {
    Store(map[], [], [], [], 0, map[], 0, 0, 0, 0)
  }

  // ---------------------------------------------------------------- accepting a page

  /** The cache record of a page on arrival. */
  function Fresh(p: Page, rows: nat): CachedPage {
    CachedPage(p.next, p.rows, p.payload, rows, 0)
  }

  /** The store with one more accepted page, before eviction. */
  ghost function Inserted(s: Store, p: Page, rows: nat, log: seq<Page>, digest: Bytes -> Digest): Store {
    var window := Digests(Recent(log + [p]), digest);
    s.(pages := s.pages[p.id := Fresh(p, rows)],
       order := s.order + [p.id],
       evictable := s.evictable + [p.id],
       consumed := window,
       consumedBytes := AccountedBytes(window),
       bytes := s.bytes + |p.payload|,
       rows := s.rows + rows)
  }

  lemma LastWithAppend(log: seq<Page>, p: Page, id: PageId)
    ensures LastWith(log + [p], id) == if p.id == id then |log| else LastWith(log, id)
  {
    assert (log + [p])[..|log|] == log;
  }

  lemma InsertedTotals(s: Store, p: Page, rows: nat)
    requires Totals(s.pages, s.bytes, s.rows, s.pinnedBytes, s.pinnedRows)
    requires p.id !in s.pages
    ensures Totals(s.pages[p.id := Fresh(p, rows)], s.bytes + |p.payload|, s.rows + rows,
                   s.pinnedBytes, s.pinnedRows)
  {
    SumUpdate(s.pages, p.id, Fresh(p, rows), PayloadBytes);
    SumUpdate(s.pages, p.id, Fresh(p, rows), ProjectedRows);
    SumUpdate(s.pages, p.id, Fresh(p, rows), PinnedPayload);
    SumUpdate(s.pages, p.id, Fresh(p, rows), PinnedRows);
  }

  lemma InsertedPins(pages: Pages, anchors: Anchors, p: Page, rows: nat)
    requires PinsMatch(pages, anchors)
    requires p.id !in pages
    ensures PinsMatch(pages[p.id := Fresh(p, rows)], anchors)
  {
    assert Holders(anchors, p.id) == {};
  }

  lemma InsertedRises(order: seq<PageId>, p: Page, log: seq<Page>)
    requires DistinctIds(log + [p]) && Rising(order, log)
    requires forall id | id in order :: LastWith(log, id) >= 0
    ensures Rising(order + [p.id], log + [p])
  {
    forall i | 0 <= i < |order|
      ensures LastWith(log + [p], order[i]) == LastWith(log, order[i]) < |log|
    {
      LastWithAppend(log, p, order[i]);
      assert order[i] in order;
      assert (log + [p])[LastWith(log, order[i])].id == order[i];
      assert (log + [p])[|log|].id == p.id;
    }
    LastWithAppend(log, p, p.id);
  }

  lemma InsertedQueues(s: Store, p: Page, log: seq<Page>)
    requires QueuesName(s.evictable, s.order, log)
    ensures QueuesName(s.evictable + [p.id], s.order + [p.id], log + [p])
  {
    forall id | id in s.order + [p.id] || id in s.evictable + [p.id]
      ensures LastWith(log + [p], id) >= 0
    {
      LastWithAppend(log, p, id);
    }
    if DistinctIds(log + [p]) {
      assert DistinctIds(log) by {
        assert forall i | 0 <= i < |log| :: log[i] == (log + [p])[i];
      }
      InsertedRises(s.order, p, log);
    }
  }

  /** A page not in the window keeps the identities in the window apart. */
  lemma RecentDistinct(log: seq<Page>, p: Page, digest: Bytes -> Digest)
    requires DistinctIds(Recent(log))
    requires forall c | c in Digests(Recent(log), digest) :: c.id != p.id
    ensures DistinctIds(Recent(log + [p]))
  {
    var window := Recent(log);
    forall i | 0 <= i < |window|
      ensures window[i].id != p.id
    {
      assert Digests(window, digest)[i].id == window[i].id;
    }
    assert Recent(log + [p]) == (window + [p])[if |log| >= WINDOW then 1 else 0..];
  }

  lemma InsertedSound(s: Store, p: Page, rows: nat, log: seq<Page>, digest: Bytes -> Digest)
    requires StoreSound(s, log, false, digest)
    requires p.id !in s.pages
    requires p.payload != []
    requires forall c | c in s.consumed :: c.id != p.id
    ensures StoreSound(Inserted(s, p, rows, log, digest), log + [p], false, digest)
  {
    hide Sum, LastWith, Digests, Recent, AccountedBytes, Distinct, DistinctIds, PinsMatch, Totals;
    var s' := Inserted(s, p, rows, log, digest);
    InsertedTotals(s, p, rows);
    InsertedPins(s.pages, s.anchors, p, rows);
    InsertedQueues(s, p, log);
    RecentDistinct(log, p, digest);
    forall id | id in s'.pages
      ensures LastWith(log + [p], id) >= 0 && Matches(s'.pages[id], (log + [p])[LastWith(log + [p], id)])
    {
      LastWithAppend(log, p, id);
    }
  }

  /** One more accepted page pushes at most one entry out of the digest window. */
  lemma WindowSlides(log: seq<Page>, p: Page, digest: Bytes -> Digest)
    ensures Digests(Recent(log + [p]), digest) ==
            (Digests(Recent(log), digest) + [Consumed(p, digest)])[if |log| >= WINDOW then 1 else 0..]
    ensures |Digests(Recent(log), digest)| == Min(|log|, WINDOW)
  {
  }

  // ---------------------------------------------------------------- eviction

  /** What `evict_to_budget` may do to a store. */
  ghost predicate Evicted(s: Store, s': Store, maxBytes: nat, maxRows: nat) {
    && s'.anchors == s.anchors && s'.consumed == s.consumed && s'.consumedBytes == s.consumedBytes
    && s'.pinnedBytes == s.pinnedBytes && s'.pinnedRows == s.pinnedRows
    && Subsequence(s'.order, s.order)
    && (exists mid: Pages, n: nat, m: nat ::
          && ShortestDrain(s.pages, s.evictable, maxBytes, mid, s'.evictable, n)
          && ShortestClear(mid, s'.order, maxRows, s'.pages, m))
  }

  /** Eviction keeps every pinned page exactly as it was, invents nothing, and takes at most
      the projection from an unpinned page it keeps. */
  lemma EvictedProtects(s: Store, s': Store, maxBytes: nat, maxRows: nat)
    requires Evicted(s, s', maxBytes, maxRows)
    ensures s'.pages.Keys <= s.pages.Keys
    ensures forall id | id in s.pages && s.pages[id].pinCount > 0 ::
              id in s'.pages && s'.pages[id] == s.pages[id]
    ensures forall id | id in s'.pages ::
              s'.pages[id] == s.pages[id] || s'.pages[id] == s.pages[id].(materializedRows := 0)
  {
  }

  lemma EvictedAnchors(s: Store, s': Store, maxBytes: nat, maxRows: nat)
    requires Evicted(s, s', maxBytes, maxRows)
    ensures s'.anchors == s.anchors
  {
  }

  /** What eviction leaves is sound and within both budgets. */
  lemma EvictedSound(s: Store, s': Store, log: seq<Page>, retired: bool, digest: Bytes -> Digest,
                     maxBytes: nat, maxRows: nat)
    requires StoreSound(s, log, retired, digest)
    requires Evicted(s, s', maxBytes, maxRows)
    requires Totals(s'.pages, s'.bytes, s'.rows, s'.pinnedBytes, s'.pinnedRows)
    requires QueuesCover(s'.pages, s'.evictable, s'.order)
    requires forall id | id in s'.order :: id in s.order
    ensures StoreSound(s', log, retired, digest)
    ensures WithinBudget(s', maxBytes, maxRows)
  {
    hide Sum, LastWith, Digests, Recent, AccountedBytes, Distinct, DistinctIds, PinsMatch, CacheRemembers, Evicted;
    EvictedFits(s, s', maxBytes, maxRows);
    EvictedProtects(s, s', maxBytes, maxRows);
    EvictedPins(s, s', maxBytes, maxRows);
    EvictedRemembers(s, s', log, maxBytes, maxRows);
    EvictedQueue(s, s', maxBytes, maxRows);
    EvictedNonEmpty(s, s', maxBytes, maxRows);
    EvictedRises(s, s', log, maxBytes, maxRows);
    if retired {
      assert s'.pages == map[];
    }
  }

  lemma EvictedRises(s: Store, s': Store, log: seq<Page>, maxBytes: nat, maxRows: nat)
    requires Evicted(s, s', maxBytes, maxRows)
    ensures Rising(s.order, log) ==> Rising(s'.order, log)
  {
    hide LastWith;
    if Rising(s.order, log) {
      SubsequenceRises(s'.order, s.order, log);
    }
  }

  /** Projections go newest first: a page that lost its own is not outlived by the projection of
      an unpinned page accepted later. */
  ghost predicate NewestFirst(pages: Pages, pages': Pages, log: seq<Page>) {
    forall a, b | a in pages && a in pages' && b in pages' && LastWith(log, a) < LastWith(log, b) ::
      pages[a].materializedRows > 0 && pages'[a].materializedRows == 0 && pages'[b].pinCount == 0 ==>
        pages'[b].materializedRows == 0
  }

  /** So it is with every eviction, as long as no identity is accepted twice. */
  lemma EvictedNewestFirst(s: Store, s': Store, log: seq<Page>, retired: bool, digest: Bytes -> Digest,
                           maxBytes: nat, maxRows: nat)
    requires StoreSound(s, log, retired, digest) && DistinctIds(log) && Evicted(s, s', maxBytes, maxRows)
    requires QueuesCover(s'.pages, s'.evictable, s'.order)
    ensures NewestFirst(s.pages, s'.pages, log)
  {
    EvictedRises(s, s', log, maxBytes, maxRows);
    var mid, n: nat, m: nat :|
      && ShortestDrain(s.pages, s.evictable, maxBytes, mid, s'.evictable, n)
      && ShortestClear(mid, s'.order, maxRows, s'.pages, m);
    hide LastWith, Sum, Subsequence, Totals, PinsMatch, CacheRemembers, WindowExact;
    forall a, b | a in s.pages && a in s'.pages && b in s'.pages && LastWith(log, a) < LastWith(log, b) &&
                  s.pages[a].materializedRows > 0 && s'.pages[a].materializedRows == 0 && s'.pages[b].pinCount == 0
      ensures s'.pages[b].materializedRows == 0
    {
      ClearedBehind(mid, s'.pages, s'.order, log, m, a, b);
    }
  }

  lemma NewestFirstOld(pages: Pages, id: PageId, c: CachedPage, pages': Pages, log: seq<Page>)
    requires NewestFirst(pages[id := c], pages', log) && id !in pages
    ensures NewestFirst(pages, pages', log)
  {
    hide LastWith;
  }

  lemma RisingBefore(order: seq<PageId>, log: seq<Page>, x: nat, y: nat)
    requires Rising(order, log) && x < |order| && y < |order|
    requires LastWith(log, order[x]) < LastWith(log, order[y])
    ensures x < y
  {
  }

  lemma ClearedBehind(mid: Pages, pages: Pages, order: seq<PageId>, log: seq<Page>, m: nat, a: PageId, b: PageId)
    requires m <= |order| && pages == Unprojected(mid, order, m) && Rising(order, log)
    requires a in pages && b in pages && b in order && LastWith(log, a) < LastWith(log, b)
    requires mid[a].materializedRows > 0 && pages[a].materializedRows == 0 && pages[b].pinCount == 0
    ensures pages[b].materializedRows == 0
  {
    hide LastWith;
    var x :| m <= x < |order| && order[x] == a;
    var y :| 0 <= y < |order| && order[y] == b;
    RisingBefore(order, log, x, y);
    assert b in order[m..];
  }

  lemma EvictedNonEmpty(s: Store, s': Store, maxBytes: nat, maxRows: nat)
    requires Evicted(s, s', maxBytes, maxRows) && NonEmpty(s.pages)
    ensures NonEmpty(s'.pages)
  {
    hide Evicted;
    EvictedProtects(s, s', maxBytes, maxRows);
  }

  /** Non-empty pages are no more than their bytes. */
  lemma {:induction false} PagesWithinBytes(pages: Pages)
    requires NonEmpty(pages)
    ensures |pages| <= Sum(pages, PayloadBytes)
    decreases |pages|
  {
    if pages != map[] {
      var id :| id in pages;
      SumRemove(pages, id, PayloadBytes);
      assert pages.Keys == (pages - {id}).Keys + {id};
      assert |pages.Keys| == |pages| && |(pages - {id}).Keys| == |pages - {id}|;
      PagesWithinBytes(pages - {id});
    }
  }

  /** The identities in the order queue whose page is gone. */
  ghost function Gone(order: seq<PageId>, pages: Pages): set<PageId> {
    set id | id in order && id !in pages
  }

  /** Pages are evicted no faster than compaction drops entries, and while it does not, the
      queue is within its bound. */
  lemma OrderStillFits(s: Store, order: seq<PageId>, pages: Pages, maxBytes: nat)
    requires OrderFits(s, maxBytes) && pages.Keys <= s.pages.Keys && |pages| <= maxBytes
    requires forall id | id in s.pages :: id in s.order
    requires |order| <= 2 * |pages| + 64 || |order| + |Gone(s.order, pages)| <= |s.order|
    ensures |order| <= maxBytes + |pages| + 64
  {
    var evicted := s.pages.Keys - pages.Keys;
    assert evicted <= Gone(s.order, pages);
    SmallerSet(evicted, Gone(s.order, pages));
    assert |evicted| == |s.pages.Keys| - |pages.Keys|;
    assert |s.pages.Keys| == |s.pages| && |pages.Keys| == |pages|;
  }

  lemma SmallerSet(a: set<PageId>, b: set<PageId>)
    requires a <= b
    ensures |a| <= |b|
  {
    assert b == a + (b - a);
  }

  lemma EvictedQueue(s: Store, s': Store, maxBytes: nat, maxRows: nat)
    requires Evicted(s, s', maxBytes, maxRows)
    ensures forall id | id in s'.evictable :: id in s.evictable
    ensures s'.anchors == s.anchors && s'.consumed == s.consumed && s'.consumedBytes == s.consumedBytes
  {
  }

  lemma EvictedFits(s: Store, s': Store, maxBytes: nat, maxRows: nat)
    requires Evicted(s, s', maxBytes, maxRows)
    ensures Sum(s'.pages, PayloadBytes) <= maxBytes && Sum(s'.pages, ProjectedRows) <= maxRows
  {
    var mid, n: nat, m: nat :|
      && ShortestDrain(s.pages, s.evictable, maxBytes, mid, s'.evictable, n)
      && ShortestClear(mid, s'.order, maxRows, s'.pages, m);
    UnprojectedBytes(mid, s'.order, m);
  }

  lemma EvictedRemembers(s: Store, s': Store, log: seq<Page>, maxBytes: nat, maxRows: nat)
    requires CacheRemembers(s.pages, log)
    requires Evicted(s, s', maxBytes, maxRows)
    ensures CacheRemembers(s'.pages, log)
  {
    hide LastWith, Evicted;
    EvictedProtects(s, s', maxBytes, maxRows);
  }

  lemma EvictedPins(s: Store, s': Store, maxBytes: nat, maxRows: nat)
    requires PinsMatch(s.pages, s.anchors)
    requires Evicted(s, s', maxBytes, maxRows)
    ensures PinsMatch(s'.pages, s.anchors)
  {
    EvictedProtects(s, s', maxBytes, maxRows);
    forall a, id | a in s.anchors && id in s.anchors[a]
      ensures id in s'.pages
    {
      assert a in Holders(s.anchors, id);
    }
  }

  lemma UnprojectedBytes(pages: Pages, order: seq<PageId>, n: nat)
    requires n <= |order|
    ensures Sum(Unprojected(pages, order, n), PayloadBytes) == Sum(pages, PayloadBytes)
  {
    SumSame(pages, Unprojected(pages, order, n), PayloadBytes);
  }

  /** A store already within budget loses nothing. */
  lemma EvictedIdle(s: Store, s': Store, maxBytes: nat, maxRows: nat)
    requires Evicted(s, s', maxBytes, maxRows)
    requires Totals(s.pages, s.bytes, s.rows, s.pinnedBytes, s.pinnedRows)
    requires WithinBudget(s, maxBytes, maxRows)
    ensures s'.pages == s.pages && s'.evictable == s.evictable && s'.anchors == s.anchors
  {
    var mid, n: nat, m: nat :|
      && ShortestDrain(s.pages, s.evictable, maxBytes, mid, s'.evictable, n)
      && ShortestClear(mid, s'.order, maxRows, s'.pages, m);
    hide Sum, ShortestDrain, ShortestClear;
    DrainIdle(s.pages, s.evictable, maxBytes, mid, s'.evictable, n);
    ClearIdle(mid, s'.order, maxRows, s'.pages, m);
  }

  lemma DrainIdle(pages: Pages, queue: seq<PageId>, max: nat, pages': Pages, queue': seq<PageId>, n: nat)
    requires ShortestDrain(pages, queue, max, pages', queue', n) && Sum(pages, PayloadBytes) <= max
    ensures pages' == pages && queue' == queue
  {
    hide Sum;
    assert Drained(pages, queue, 0) == pages;
    assert n == 0;
  }

  lemma ClearIdle(pages: Pages, order: seq<PageId>, max: nat, pages': Pages, m: nat)
    requires ShortestClear(pages, order, max, pages', m) && Sum(pages, ProjectedRows) <= max
    ensures pages' == pages
  {
    hide Sum;
    assert Unprojected(pages, order, |order|) == pages;
    assert m == |order|;
  }

  /** The page just accepted is still cached afterwards exactly if the byte budget is met before
      eviction comes to an older queue entry of the same identity. */
  lemma AcceptSurvives(s: Store, p: Page, rows: nat, log: seq<Page>, digest: Bytes -> Digest,
                       s': Store, maxBytes: nat, maxRows: nat)
    requires StoreSound(s, log, false, digest)
    requires p.id !in s.pages
    requires s.pinnedBytes + |p.payload| <= maxBytes
    requires Evicted(Inserted(s, p, rows, log, digest), s', maxBytes, maxRows)
    ensures p.id in s'.pages <==>
            forall k | 0 <= k < |s.evictable| && s.evictable[k] == p.id ::
              MetBy(s.pages[p.id := Fresh(p, rows)], s.evictable + [p.id], maxBytes, k)
  {
    hide MetBy, Digests, Recent, AccountedBytes, LastWith;
    var t := Inserted(s, p, rows, log, digest);
    var mid, n: nat, m: nat :|
      && ShortestDrain(t.pages, t.evictable, maxBytes, mid, s'.evictable, n)
      && ShortestClear(mid, s'.order, maxRows, s'.pages, m);
    InsertedTotals(s, p, rows);
    hide Totals, Sum;
    NewestSurvives(t.pages, s.evictable, p.id, maxBytes, mid, s'.evictable, n);
  }

  /** All that changed is that the page is cached, unpinned and with this many rows projected. */
  ghost predicate OnlyAdded(s: Store, p: Page, rows: nat, s': Store) {
    && s'.pages == s.pages[p.id := CachedPage(p.next, p.rows, p.payload, rows, 0)]
    && s'.bytes == s.bytes + |p.payload| && s'.rows == s.rows + rows
  }

  /** A page that fits into both budgets beside all others is only added, with the rows it came
      with. */
  lemma AcceptFits(s: Store, p: Page, rows: nat, log: seq<Page>, digest: Bytes -> Digest,
                   s': Store, maxBytes: nat, maxRows: nat)
    requires StoreTotals(s) && StoreTotals(s') && p.id !in s.pages
    requires Evicted(Inserted(s, p, rows, log, digest), s', maxBytes, maxRows)
    requires s.bytes + |p.payload| <= maxBytes && s.rows + rows <= maxRows
    ensures OnlyAdded(s, p, rows, s')
  {
    hide Digests, Recent, AccountedBytes, Evicted, Sum;
    InsertedTotals(s, p, rows);
    EvictedIdle(Inserted(s, p, rows, log, digest), s', maxBytes, maxRows);
  }

  /** So a page accepted for the first time in its generation always is. */
  lemma FirstAcceptSurvives(s: Store, p: Page, rows: nat, log: seq<Page>, digest: Bytes -> Digest,
                            s': Store, maxBytes: nat, maxRows: nat)
    requires StoreSound(s, log, false, digest)
    requires LastWith(log, p.id) < 0
    requires s.pinnedBytes + |p.payload| <= maxBytes
    requires Evicted(Inserted(s, p, rows, log, digest), s', maxBytes, maxRows)
    ensures p.id in s'.pages
  {
    hide MetBy, Digests, Recent, AccountedBytes, Evicted, Totals, PinsMatch;
    AcceptSurvives(s, p, rows, log, digest, s', maxBytes, maxRows);
  }

  // ---------------------------------------------------------------- anchors

  lemma UnpinStep(pages: Pages, anchors: Anchors, evictable: seq<PageId>, order: seq<PageId>,
                  todo: set<PageId>, id: PageId)
    requires PinsPlus(pages, anchors, todo) && id in todo
    requires QueuesCover(pages, evictable, order)
    ensures var pages' := pages[id := pages[id].(pinCount := SatSub(pages[id].pinCount, 1))];
            var evictable' := evictable + if pages[id].pinCount == 1 then [id] else [];
            && PinsPlus(pages', anchors, todo - {id})
            && QueuesCover(pages', evictable', order)
            && SameContents(pages, pages')
  {
  }

  lemma PinStep(pages: Pages, anchors: Anchors, evictable: seq<PageId>, order: seq<PageId>,
                done: set<PageId>, id: PageId)
    requires PinsPlus(pages, anchors, done) && id !in done && id in pages
    requires QueuesCover(pages, evictable, order)
    ensures var pages' := pages[id := pages[id].(pinCount := pages[id].pinCount + 1)];
            && PinsPlus(pages', anchors, done + {id})
            && QueuesCover(pages', evictable, order)
            && SameContents(pages, pages')
  {
  }

  /** Giving up one holder of each page of `ids` queued, once each, exactly those pages whose only
      pin it was, behind what was queued before. */
  ghost predicate Freed(pages: Pages, ids: set<PageId>, before: seq<PageId>, after: seq<PageId>) {
    && before <= after && Distinct(after[|before|..])
    && forall id :: id in after[|before|..] <==> id in ids && id in pages && pages[id].pinCount == 1
  }

  /** The pages an anchor holds. */
  function Held(anchors: Anchors, a: AnchorId): set<PageId> {
    if a in anchors then anchors[a] else {}
  }

  lemma FreedNone(pages: Pages, queue: seq<PageId>)
    ensures Freed(pages, {}, queue, queue)
  {
  }

  lemma FreedStep(pages: Pages, done: set<PageId>, before: seq<PageId>, after: seq<PageId>, id: PageId)
    requires Freed(pages, done, before, after) && id in pages && id !in done
    ensures Freed(pages, done + {id}, before, after + if pages[id].pinCount == 1 then [id] else [])
  {
    var more := if pages[id].pinCount == 1 then [id] else [];
    assert (after + more)[|before|..] == after[|before|..] + more;
  }

  ghost predicate SamePins(pages: Pages, pages': Pages, ids: set<PageId>) {
    forall id | id in ids :: id in pages && id in pages' && pages'[id].pinCount == pages[id].pinCount
  }

  /** `s'` differs from `s` in anchors, pin counts, pinned totals and queued-up unpinned pages only. */
  ghost predicate Repinned(s: Store, s': Store) {
    && s'.order == s.order && s'.consumed == s.consumed && s'.consumedBytes == s.consumedBytes
    && SameContents(s.pages, s'.pages) && s'.pages.Keys == s.pages.Keys
    && QueuesCover(s'.pages, s'.evictable, s'.order)
    && s.evictable <= s'.evictable && (forall id | id in s'.evictable :: id in s.evictable || id in s.pages)
  }

  lemma RepinnedChain(a: Store, b: Store, c: Store)
    requires Repinned(a, b) && Repinned(b, c)
    ensures Repinned(a, c)
  {
  }

  /** Registrations are no part of what pinning changes. */
  lemma RepinnedAnchors(a: Store, b: Store, anchors: Anchors)
    requires Repinned(a, b)
    ensures Repinned(a, b.(anchors := anchors)) && SameContents(a.pages, b.pages)
    ensures b.pages.Keys == a.pages.Keys && QueuesCover(b.pages, b.evictable, b.order)
  {
  }

  lemma SameContentsChain(a: Pages, b: Pages, c: Pages)
    requires SameContents(a, b) && SameContents(b, c)
    ensures SameContents(a, c)
  {
  }

  lemma SameContentsSelf(a: Pages)
    ensures SameContents(a, a)
  {
  }

  lemma PinsPlusNone(pages: Pages, anchors: Anchors)
    ensures PinsPlus(pages, anchors, {}) <==> PinsMatch(pages, anchors)
  {
  }

  /** Nothing but who pins the pages differs. */
  ghost predicate SameContents(pages: Pages, pages': Pages) {
    && pages.Keys == pages'.Keys
    && forall id | id in pages :: SamePage(pages[id], pages'[id])
  }

  /** Pins match the anchors plus one further, unregistered holder of `extra`. */
  ghost predicate PinsPlus(pages: Pages, anchors: Anchors, extra: set<PageId>) {
    && (forall a | a in anchors :: anchors[a] <= pages.Keys)
    && extra <= pages.Keys
    && (forall id | id in pages :: pages[id].pinCount == |Holders(anchors, id)| + if id in extra then 1 else 0)
  }

  lemma PinsSplit(pages: Pages, anchors: Anchors, a: AnchorId)
    requires PinsMatch(pages, anchors) && a in anchors
    ensures PinsPlus(pages, anchors - {a}, anchors[a])
  {
    forall id | id in pages
      ensures pages[id].pinCount == |Holders(anchors - {a}, id)| + if id in anchors[a] then 1 else 0
    {
      HoldersRemove(anchors, a, id);
    }
  }

  lemma PinsJoin(pages: Pages, anchors: Anchors, a: AnchorId, ids: set<PageId>)
    requires PinsPlus(pages, anchors, ids) && a !in anchors
    ensures PinsMatch(pages, anchors[a := ids])
  {
    forall id | id in pages
      ensures pages[id].pinCount == |Holders(anchors[a := ids], id)|
    {
      HoldersInsert(anchors, a, ids, id);
    }
  }

  /** Replacing who pins the pages, and nothing else, keeps the store sound and its weight. */
  lemma RepinnedSound(s: Store, s': Store, log: seq<Page>, retired: bool, digest: Bytes -> Digest)
    requires StoreSound(s, log, retired, digest)
    requires Repinned(s, s')
    requires StoreTotals(s') && PinsMatch(s'.pages, s'.anchors)
    ensures StoreSound(s', log, retired, digest)
    ensures s'.bytes == s.bytes && s'.rows == s.rows && |s'.pages| == |s.pages| && s'.order == s.order
  {
    SumSame(s.pages, s'.pages, PayloadBytes);
    SumSame(s.pages, s'.pages, ProjectedRows);
    assert |s.pages.Keys| == |s'.pages.Keys|;
    if retired {
      assert s'.pages == map[];
    }
  }

  lemma RepinnedBounds(s: Store, s': Store, log: seq<Page>, maxBytes: nat, maxRows: nat)
    requires s'.bytes == s.bytes && s'.rows == s.rows && |s'.pages| == |s.pages| && s'.order == s.order
    requires OrderBounded(s, log) && WithinBudget(s, maxBytes, maxRows) && OrderFits(s, maxBytes)
    ensures OrderBounded(s', log) && WithinBudget(s', maxBytes, maxRows) && OrderFits(s', maxBytes)
    ensures s'.bytes <= maxBytes && s'.rows <= maxRows
  {
  }
}
