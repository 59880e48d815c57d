/** The bounded, generation-bound history page cache. */
module HistoryCaches {
  import opened Prelude
  import opened HistoryPages
  import opened HistoryEviction
  import opened HistoryLoad
  import opened HistoryStore

  datatype Viewport = Tail | Pinned(anchor: AnchorId)

  datatype PageCheck = New | Duplicate(id: PageId)

  datatype CacheError =
    | CursorGap
    | DuplicateConflict
    | SequenceGap(expected: U64, actual: U64)
    | SequenceExhausted
    | EmptyPayload
    | PageTooLarge(required: nat, budget: nat)
    | ProjectionTooLarge(required: nat, budget: nat)
    | PinnedBudget(required: nat, budget: nat)
    | PinnedProjectionBudget(required: nat, budget: nat)
    | PageUnavailable
    | AnchorUnavailable

  datatype Config = Config(
    maxBytes: nat,
    maxMaterializedRows: nat,
    prefetchRows: nat,
    requestMaxBytes: U32,
    requestMaxRows: U32)

  /** The largest byte limit one request may carry. */
  function ByteCap(c: Config): (n: U32)
    ensures n <= c.maxBytes && (n == c.maxBytes || n == U32_MAX)
  {
    Min(c.maxBytes, U32_MAX)
  }

  /** The largest row limit one request may carry. */
  function RowCap(c: Config): (n: U32)
    ensures n <= 4096 && n <= c.maxMaterializedRows && (n == 4096 || n == c.maxMaterializedRows)
  {
    Min(MAX_HISTORY_PAGE_ROWS, Min(c.maxMaterializedRows, U32_MAX))
  }

  /** `n` is the number from 1 to `cap` that is nearest to `wanted`. */
  predicate Nearest(n: nat, wanted: nat, cap: nat) {
    && 1 <= n <= cap
    && (1 <= wanted <= cap ==> n == wanted) && (wanted > cap ==> n == cap) && (wanted == 0 ==> n == 1)
  }

  predicate Normal(c: Config) {
    && c.maxBytes >= 1 && c.maxMaterializedRows >= 1
    && 1 <= c.requestMaxBytes <= ByteCap(c)
    && 1 <= c.requestMaxRows <= RowCap(c)
  }

  /** The nearest policy with usable limits; one that has them is kept as it is. */
  function Normalized(c: Config): (r: Config)
    ensures Normal(r)
    ensures Normal(c) ==> r == c
    ensures r.maxBytes == Max(c.maxBytes, 1) && r.maxMaterializedRows == Max(c.maxMaterializedRows, 1)
    ensures r.prefetchRows == c.prefetchRows
    ensures Nearest(r.requestMaxBytes, c.requestMaxBytes, ByteCap(r)) && Nearest(r.requestMaxRows, c.requestMaxRows, RowCap(r))
  {
    var c1 := c.(maxBytes := Max(c.maxBytes, 1), maxMaterializedRows := Max(c.maxMaterializedRows, 1));
    c1.(requestMaxBytes := Min(Max(c.requestMaxBytes, 1), ByteCap(c1)),
        requestMaxRows := Min(Max(c.requestMaxRows, 1), RowCap(c1)))
  }

  /** The least limits that cover both the last attempt, which the server called too small, and
      what the server demands; none if it demands nothing, nothing more, or more than is allowed. */
  function Grown(c: Config, bytes: U32, rows: U32, requiredBytes: U32, requiredRows: U32): (r: Option<(U32, U32)>)
    ensures r.Some? ==>
              && bytes <= r.value.0 && rows <= r.value.1 && bytes + rows < r.value.0 + r.value.1
              && requiredBytes <= r.value.0 && requiredRows <= r.value.1
              && (r.value.0 == bytes || r.value.0 == requiredBytes) && (r.value.1 == rows || r.value.1 == requiredRows)
              && requiredBytes > 0 && requiredRows > 0
              && (bytes <= ByteCap(c) ==> r.value.0 <= ByteCap(c))
              && (rows <= RowCap(c) ==> r.value.1 <= RowCap(c))
    ensures r.None? && requiredBytes > 0 && requiredRows > 0 ==>
              || (requiredBytes <= bytes && requiredRows <= rows)
              || requiredBytes > ByteCap(c) || requiredRows > RowCap(c)
  {
    if || requiredBytes == 0 || requiredRows == 0
       || (requiredBytes <= bytes && requiredRows <= rows)
       || requiredBytes > ByteCap(c)
       || requiredRows > MAX_HISTORY_PAGE_ROWS
       || requiredRows > Min(c.maxMaterializedRows, U32_MAX)
    then None
    else Some((Max(bytes, requiredBytes), Max(rows, requiredRows)))
  }

  ghost predicate Retried(c: Config, limits: (U32, U32), next: (U32, U32)) {
    exists rb: U32, rr: U32 :: Grown(c, limits.0, limits.1, rb, rr) == Some(next)
  }

  /** A request that starts from normalized limits can be called too small only so often, and
      every retry stays within the byte and row caps. */
  lemma {:induction false} RetriesFinite(c: Config, limits: seq<(U32, U32)>)
    requires Normal(c)
    requires limits != [] && limits[0] == (c.requestMaxBytes, c.requestMaxRows)
    requires forall i | 0 < i < |limits| :: Retried(c, limits[i - 1], limits[i])
    ensures forall i | 0 <= i < |limits| :: limits[i].0 <= ByteCap(c) && limits[i].1 <= RowCap(c)
    ensures limits[|limits| - 1].0 + limits[|limits| - 1].1 >= |limits| + 1
    ensures |limits| < ByteCap(c) + RowCap(c)
  {
    hide Grown, ByteCap, RowCap;
    if |limits| > 1 {
      var n := |limits| - 1;
      RetriesFinite(c, limits[..n]);
      assert Retried(c, limits[n - 1], limits[n]);
    }
  }

  /** A pinned viewport's anchor is registered, only a pinned viewport has unread rows, and
      registrations stay within their cap. */
  ghost predicate ViewportValid(viewport: Viewport, unread: nat, anchors: Anchors, cap: nat) {
    && (viewport.Pinned? ==> viewport.anchor in anchors)
    && (viewport.Tail? ==> unread == 0)
    && |anchors| <= cap
  }

  /** The first window entry with this identity, if any. */
  function FindConsumed(entries: seq<ConsumedPage>, id: PageId): (r: Option<ConsumedPage>)
    ensures r.Some? ==> r.value in entries && r.value.id == id
    ensures r.None? ==> forall c | c in entries :: c.id != id
  {
    if entries == [] then None
    else if entries[0].id == id then Some(entries[0])
    else FindConsumed(entries[1..], id)
  }

  lemma RecentAt(log: seq<Page>, digest: Bytes -> Digest, i: nat)
    requires i < |Recent(log)|
    ensures |Digests(Recent(log), digest)| == |Recent(log)| == |log| - SatSub(|log|, WINDOW)
    ensures Recent(log)[i] == log[SatSub(|log|, WINDOW) + i]
    ensures Digests(Recent(log), digest)[i] == Consumed(log[SatSub(|log|, WINDOW) + i], digest)
  {
  }

  /** The window search finds the last accepted page with this identity while it is recent. */
  lemma WindowFinds(log: seq<Page>, digest: Bytes -> Digest, id: PageId)
    requires DistinctIds(Recent(log))
    ensures var k := LastWith(log, id);
            FindConsumed(Digests(Recent(log), digest), id) ==
            if k >= 0 && k >= |log| - WINDOW then Some(Consumed(log[k], digest)) else None
  {
    var k, at, consumed := LastWith(log, id), SatSub(|log|, WINDOW), Digests(Recent(log), digest);
    var found := FindConsumed(consumed, id);
    assert |consumed| == |log| - at;
    hide Digests, Recent, LastWith, FindConsumed;
    if k >= at {
      RecentAt(log, digest, k - at);
      assert consumed[k - at] in consumed;
    }
    if found.Some? {
      var i :| 0 <= i < |consumed| && consumed[i] == found.value;
      RecentAt(log, digest, i);
      assert at + i <= k;
      assert Recent(log)[i].id == Recent(log)[k - at].id;
    }
  }

  /** The cache's fields, grouped by what changes together: `store` holds the pages with their
      queues, digests, anchors and totals, `fetch` the cursor chain and the request in flight. */
  class HistoryCache {
    const config: Config
    /** SHA-256, of which only determinism is assumed. */
    const digest: Bytes -> Digest
    var store: Store
    var fetch: Fetch
    var viewport: Viewport
    var unreadRows: U64
    /** Every page newly accepted in this generation, oldest first. */
    ghost var log: seq<Page>

    // -------------------------------------------------------------- invariant

    /** Everything but the two budgets and the closer of the two order bounds. */
    ghost predicate Consistent()
      reads this
    {
      && StoreSound(store, log, Retired(fetch.state), digest)
      && ViewportValid(viewport, unreadRows, store.anchors, config.maxMaterializedRows)
      && FetchValid(fetch)
      && Normal(config)
      && OrderFits(store, config.maxBytes)
    }

    ghost predicate Valid()
      reads this
    {
      && Consistent()
      && OrderBounded(store, log)
      && WithinBudget(store, config.maxBytes, config.maxMaterializedRows)
    }

    constructor (config: Config, newestCursor: Option<Cursor>, digest: Bytes -> Digest)
      ensures Valid()
      ensures this.config == Normalized(config) && this.digest == digest
      ensures fetch == Started(newestCursor) && log == []
      ensures fetch.nextCursor == newestCursor && (newestCursor.Some? ==> fetch.state.Idle? && fetch.nextPageSeq == Some(1))
      ensures store == Empty() && viewport == Tail
    {
      this.config := Normalized(config);
      this.digest := digest;
      store := Empty();
      fetch := Fetch(if newestCursor.Some? then Idle else Complete, newestCursor,
                     if newestCursor.Some? then Some(1) else None, 0, 0);
      viewport, unreadRows := Tail, 0;
      log := [];
      StartSound(digest);
    }

    // -------------------------------------------------------------- fetching

    method BeginFetchWithLimits(maxBytes: U32, maxRows: U32) returns (r: Option<Cursor>)
      requires Valid()
      modifies `fetch
      ensures Valid()
      ensures fetch == Begun(old(fetch), maxBytes, maxRows)
      ensures r == if old(fetch).state.Idle? && maxBytes > 0 && maxRows > 0 then fetch.nextCursor else None
      ensures r.Some? <==> old(fetch).state.Idle? && fetch.state.Loading?
      ensures r.Some? ==> fetch == old(fetch).(state := Loading, maxBytes := maxBytes, maxRows := maxRows)
      ensures r.None? ==> fetch == old(fetch)
    {
      hide StoreSound;
      if !fetch.state.Idle? || maxBytes == 0 || maxRows == 0 {
        return None;
      }
      if fetch.nextCursor.None? {
        return None;
      }
      fetch := fetch.(state := Loading, maxBytes := maxBytes, maxRows := maxRows);
      return fetch.nextCursor;
    }

    method BeginFetch() returns (r: Option<Cursor>)
      requires Valid()
      modifies `fetch
      ensures Valid()
      ensures fetch == Begun(old(fetch), config.requestMaxBytes, config.requestMaxRows)
      ensures r == if old(fetch).state.Idle? then fetch.nextCursor else None
      ensures r.Some? ==> fetch.maxBytes <= ByteCap(config) && fetch.maxRows <= RowCap(config)
    {
      hide StoreSound;
      r := BeginFetchWithLimits(config.requestMaxBytes, config.requestMaxRows);
    }

    method CancelFetch(cursor: Cursor) returns (ok: bool)
      requires Valid()
      modifies `fetch
      ensures Valid()
      ensures fetch == Cancelled(old(fetch), cursor)
      ensures ok <==> old(fetch).state.Loading? && old(fetch).nextCursor == Some(cursor)
      ensures fetch == if ok then old(fetch).(state := Idle, maxBytes := 0, maxRows := 0) else old(fetch)
    {
      hide StoreSound;
      if !fetch.state.Loading? || fetch.nextCursor != Some(cursor) {
        return false;
      }
      fetch := fetch.(state := Idle, maxBytes := 0, maxRows := 0);
      return true;
    }

    function RetryLimits(requiredBytes: U32, requiredRows: U32): Option<(U32, U32)>
      reads this
    {
      Grown(config, fetch.maxBytes, fetch.maxRows, requiredBytes, requiredRows)
    }

    /** The kernel's answer to a rejected request: cancel it, and after "too small" either ask
        once more with larger limits or give the generation up. */
    method HistoryRejected(cursor: Cursor, tooSmall: bool, requiredBytes: U32, requiredRows: U32)
      returns (r: Result<Option<(Cursor, U32, U32)>, CacheError>)
      requires Valid()
      modifies `store, `fetch, `viewport, `unreadRows
      ensures Valid()
      ensures r.Err? <==> !(old(fetch).state.Loading? && old(fetch).nextCursor == Some(cursor))
      ensures r.Err? ==> r.error == CursorGap && fetch == old(fetch)
      ensures !(r.Ok? && r.value.None? && tooSmall) ==>
                store == old(store) && viewport == old(viewport) && unreadRows == old(unreadRows)
      ensures r.Ok? && r.value.Some? ==>
                && tooSmall && r.value.value == (cursor, fetch.maxBytes, fetch.maxRows)
                && fetch == old(fetch).(maxBytes := fetch.maxBytes, maxRows := fetch.maxRows)
                && Grown(config, old(fetch).maxBytes, old(fetch).maxRows, requiredBytes, requiredRows) == Some((fetch.maxBytes, fetch.maxRows))
      ensures r.Ok? && r.value.None? ==>
                if tooSmall
                then && Grown(config, old(fetch).maxBytes, old(fetch).maxRows, requiredBytes, requiredRows).None?
                     && fetch == Invalidated(Tombstoned)
                else fetch == Cancelled(old(fetch), cursor)
    {
      hide StoreSound;
      var retry := if tooSmall then RetryLimits(requiredBytes, requiredRows) else None;
      var cancelled := CancelFetch(cursor);
      if !cancelled {
        return Err(CursorGap);
      }
      var next: Option<(Cursor, U32, U32)> := None;
      if retry.Some? {
        var begun := BeginFetchWithLimits(retry.value.0, retry.value.1);
        if begun.Some? {
          next := Some((begun.value, retry.value.0, retry.value.1));
        }
      }
      if tooSmall && next.None? {
        Invalidate(Tombstoned);
      }
      return Ok(next);
    }

    // -------------------------------------------------------------- page checks

    function IsReplayedPage(p: Page): Result<bool, CacheError>
      reads this
    {
      if p.id in store.pages then
        var existing := store.pages[p.id];
        if existing.payload == p.payload && existing.next == p.next && existing.declaredRows == p.rows
        then Ok(true) else Err(DuplicateConflict)
      else
        var found := FindConsumed(store.consumed, p.id);
        if found.Some? then
          var c := found.value;
          if c.digest == digest(p.payload) && c.next == p.next && c.declaredRows == p.rows
          then Ok(true) else Err(DuplicateConflict)
        else Ok(false)
    }

    function CheckPageOrder(p: Page): Option<CacheError>
      reads this
    {
      if !fetch.state.Loading? || fetch.nextCursor != Some(p.id.cursor) then Some(CursorGap)
      else
        var expected := if fetch.nextPageSeq.Some? then fetch.nextPageSeq.value else 1;
        if p.id.pageSeq == 0 || p.id.pageSeq != expected then Some(SequenceGap(expected, p.id.pageSeq))
        else if p.next == Some(p.id.cursor) && p.id.pageSeq == U64_MAX then Some(SequenceExhausted)
        else None
    }

    function CheckPageBudgets(p: Page): Option<CacheError>
      reads this
    {
      if p.payload == [] then Some(EmptyPayload)
      else if |p.payload| > config.maxBytes || |p.payload| > fetch.maxBytes then
        Some(PageTooLarge(|p.payload|, Min(config.maxBytes, fetch.maxBytes)))
      else if p.rows > fetch.maxRows || p.rows > MAX_HISTORY_PAGE_ROWS then
        Some(ProjectionTooLarge(p.rows, fetch.maxRows))
      else if store.pinnedBytes + |p.payload| > config.maxBytes then
        Some(PinnedBudget(store.pinnedBytes + |p.payload|, config.maxBytes))
      else if store.pinnedRows + p.rows > config.maxMaterializedRows then
        Some(PinnedProjectionBudget(store.pinnedRows + p.rows, config.maxMaterializedRows))
      else None
    }

    function CheckPage(p: Page): Result<PageCheck, CacheError>
      reads this
    {
      match IsReplayedPage(p)
      case Err(e) => Err(e)
      case Ok(true) => Ok(Duplicate(p.id))
      case Ok(false) =>
        var order := CheckPageOrder(p);
        if order.Some? then Err(order.value)
        else
          var budget := CheckPageBudgets(p);
          if budget.Some? then Err(budget.value) else Ok(New)
    }

    /** Replay detection is exactly "remember every accepted page" for as long as the page is
        cached or fewer than `WINDOW` newer pages were accepted, whichever raw pages were evicted;
        past that, and after an invalidation, the page is unknown. The digest only has to tell
        this payload apart from the one accepted under the same identity. */
    lemma ReplayRefines(p: Page)
      requires Valid()
      requires forall k | 0 <= k < |log| && log[k].id == p.id ::
                 digest(log[k].payload) == digest(p.payload) ==> log[k].payload == p.payload
      ensures var k := LastWith(log, p.id);
              IsReplayedPage(p) ==
              if k < 0 || Retired(fetch.state) || (p.id !in store.pages && k < |log| - WINDOW) then Ok(false)
              else if log[k] == p then Ok(true)
              else Err(DuplicateConflict)
      ensures var k := LastWith(log, p.id);
              k >= 0 && !Retired(fetch.state) && (p.id in store.pages || k >= |log| - WINDOW) ==>
                CheckPage(p) == if log[k] == p then Ok(Duplicate(p.id)) else Err(DuplicateConflict)
    {
      hide Totals, PinsMatch, QueuesCover, QueuesName, OrderBounded, Digests, Recent, DistinctIds, AccountedBytes;
      if !Retired(fetch.state) {
        WindowFinds(log, digest, p.id);
      }
    }

    // -------------------------------------------------------------- eviction

    /** The first loop of `evict_to_budget`: drop the shortest queue prefix that suffices. */
    method EvictBytes()
      requires StoreTotals(store) && PinsMatch(store.pages, store.anchors)
      requires QueuesCover(store.pages, store.evictable, store.order)
      requires store.pinnedBytes <= config.maxBytes
      modifies `store
      ensures StoreTotals(store)
      ensures QueuesCover(store.pages, store.evictable, store.order)
      ensures store == old(store).(pages := store.pages, evictable := store.evictable,
                                   bytes := store.bytes, rows := store.rows)
      ensures exists n: nat ::
                ShortestDrain(old(store).pages, old(store).evictable, config.maxBytes,
                              store.pages, store.evictable, n)
    {
      hide Draining, PinsMatch, QueuesCover;
      ghost var s0, n: nat := store, 0;
      DrainingStart(store.pages, store.evictable, config.maxBytes);
      while store.bytes > config.maxBytes && store.evictable != []
        invariant Draining(s0.pages, s0.evictable, config.maxBytes, store.pages, store.evictable, n)
        invariant StoreTotals(store) && PinsMatch(store.pages, store.anchors)
        invariant store == s0.(pages := store.pages, evictable := store.evictable,
                               bytes := store.bytes, rows := store.rows)
        decreases |store.evictable|
      {
        DrainingStep(s0.pages, s0.evictable, config.maxBytes, store.pages, store.evictable, n);
        var id := store.evictable[0];
        store := store.(evictable := store.evictable[1..]);
        n := n + 1;
        if Removable(store.pages, id) {
          RemovePage(id);
        }
      }
      DrainingEnd(s0.pages, s0.evictable, s0.order, config.maxBytes, store.pages, store.evictable, n);
    }

    /** Take one unpinned page out of the cache; the anchor scrub finds nothing to remove. */
    method RemovePage(id: PageId)
      requires StoreTotals(store) && PinsMatch(store.pages, store.anchors)
      requires Removable(store.pages, id)
      modifies `store
      ensures StoreTotals(store) && PinsMatch(store.pages, store.anchors)
      ensures store == old(store).(pages := old(store).pages - {id}, bytes := store.bytes, rows := store.rows)
    {
      SumRemove(store.pages, id, PayloadBytes);
      SumRemove(store.pages, id, ProjectedRows);
      SumRemove(store.pages, id, PinnedPayload);
      SumRemove(store.pages, id, PinnedRows);
      var removed := store.pages[id];
      assert |removed.payload| <= store.bytes && removed.materializedRows <= store.rows;
      store := store.(pages := store.pages - {id},
                      bytes := SatSub(store.bytes, |removed.payload|),
                      rows := SatSub(store.rows, removed.materializedRows));
      ghost var anchors0 := store.anchors;
      forall a | a in store.anchors
        ensures id !in store.anchors[a]
      {
        assert a !in Holders(store.anchors, id);
      }
      assert forall a | a in store.anchors :: store.anchors[a] - {id} == store.anchors[a];
      store := store.(anchors := map a | a in store.anchors :: store.anchors[a] - {id});
      assert store.anchors == anchors0;
    }

    /** Drop order entries whose page is gone, once they outnumber the pages enough. */
    method CompactOrder()
      requires forall id | id in store.pages :: id in store.order
      modifies `store
      ensures store == old(store).(order := store.order)
      ensures forall id | id in store.pages :: id in store.order
      ensures forall id | id in store.order :: id in old(store).order
      ensures Distinct(old(store).order) ==> Distinct(store.order) && |store.order| <= 2 * |store.pages| + 64
      ensures Subsequence(store.order, old(store).order)
      ensures |old(store).order| <= 2 * |store.pages| + 64 ==> store.order == old(store).order
      ensures || |store.order| <= 2 * |store.pages| + 64
              || |store.order| + |Gone(old(store).order, store.pages)| <= |old(store).order|
    {
      SubsequenceSelf(store.order);
      if |store.order| > 2 * |store.pages| + 64 {
        var kept := Retain(store.order, store.pages);
        if Distinct(kept) {
          DistinctFits(kept, store.pages.Keys);
        }
        store := store.(order := kept);
      }
    }

    /** The newest order entry whose page is unpinned and still projected, or -1. */
    method FindMaterialized() returns (k: int)
      ensures -1 <= k < |store.order|
      ensures k >= 0 ==> Materialized(store.pages, store.order[k])
      ensures forall j | k < j < |store.order| :: !Materialized(store.pages, store.order[j])
    {
      k := |store.order| - 1;
      while k >= 0 && !Materialized(store.pages, store.order[k])
        invariant -1 <= k < |store.order|
        invariant forall j | k < j < |store.order| :: !Materialized(store.pages, store.order[j])
      {
        k := k - 1;
      }
    }

    /** Forget the projection of one unpinned page. */
    method DropProjection(id: PageId)
      requires StoreTotals(store)
      requires Removable(store.pages, id)
      modifies `store
      ensures StoreTotals(store)
      ensures store == old(store).(pages := old(store).pages[id := old(store).pages[id].(materializedRows := 0)],
                                   rows := store.rows)
    {
      var page := store.pages[id];
      var bare := page.(materializedRows := 0);
      SumUpdate(store.pages, id, bare, PayloadBytes);
      SumUpdate(store.pages, id, bare, ProjectedRows);
      SumUpdate(store.pages, id, bare, PinnedPayload);
      SumUpdate(store.pages, id, bare, PinnedRows);
      assert page.materializedRows <= store.rows;
      store := store.(rows := SatSub(store.rows, page.materializedRows),
                      pages := store.pages[id := bare]);
    }

    method EvictMaterializations()
      requires StoreTotals(store)
      requires forall id | id in store.pages :: id in store.order
      requires store.pinnedRows <= config.maxMaterializedRows
      modifies `store
      ensures StoreTotals(store)
      ensures store == old(store).(pages := store.pages, rows := store.rows)
      ensures exists n: nat ::
                ShortestClear(old(store).pages, store.order, config.maxMaterializedRows, store.pages, n)
      ensures store.pages.Keys == old(store).pages.Keys
      ensures forall id | id in store.pages :: store.pages[id].pinCount == old(store).pages[id].pinCount
    {
      hide Clearing;
      ghost var s0, n: nat := store, |store.order|;
      ClearingStart(store.pages, store.order, config.maxMaterializedRows);
      var k := FindMaterialized();
      while store.rows > config.maxMaterializedRows && k >= 0
        invariant Clearing(s0.pages, s0.order, config.maxMaterializedRows, store.pages, n)
        invariant StoreTotals(store) && store == s0.(pages := store.pages, rows := store.rows)
        invariant store.pages.Keys == s0.pages.Keys
        invariant -1 <= k < n <= |s0.order|
        invariant k >= 0 ==> Materialized(store.pages, s0.order[k])
        invariant forall j | k < j < |s0.order| :: !Materialized(store.pages, s0.order[j])
        decreases n
      {
        ClearingStep(s0.pages, s0.order, config.maxMaterializedRows, store.pages, k, n);
        DropProjection(store.order[k]);
        n := k;
        k := FindMaterialized();
        if k >= n {
          ClearingBehind(s0.pages, s0.order, config.maxMaterializedRows, store.pages, n, k);
        }
      }
      if k < 0 {
        forall id | id in store.pages
          ensures ProjectedRows(store.pages[id]) <= PinnedRows(store.pages[id])
        {
          assert id in store.order;
          assert !Materialized(store.pages, id);
        }
        SumCompare(store.pages, ProjectedRows, PinnedRows);
      }
      ClearingKeeps(s0.pages, s0.order, config.maxMaterializedRows, store.pages, n);
      assert ShortestClear(s0.pages, s0.order, config.maxMaterializedRows, store.pages, n);
    }

    method EvictToBudget()
      requires Consistent()
      requires store.pinnedBytes <= config.maxBytes && store.pinnedRows <= config.maxMaterializedRows
      modifies `store
      ensures Valid()
      ensures Evicted(old(store), store, config.maxBytes, config.maxMaterializedRows)
      ensures DistinctIds(log) ==> NewestFirst(old(store).pages, store.pages, log)
    {
      hide NewestFirst, Subsequence, StoreSound, WithinBudget, PinsMatch, Totals, Distinct, DistinctIds, ShortestDrain, ShortestClear, Gone, NonEmpty;
      ghost var s0 := store;
      StoreParts(s0, log, Retired(fetch.state), digest);
      EvictBytes();
      CompactOrder();
      ghost var mid := store;
      EvictMaterializations();
      assert Evicted(s0, store, config.maxBytes, config.maxMaterializedRows);
      assert |store.pages.Keys| == |mid.pages.Keys|;
      EvictedSound(s0, store, log, Retired(fetch.state), digest, config.maxBytes, config.maxMaterializedRows);
      if DistinctIds(log) {
        EvictedNewestFirst(s0, store, log, Retired(fetch.state), digest, config.maxBytes, config.maxMaterializedRows);
      }
      PagesFew(store, log, Retired(fetch.state), digest, config.maxBytes, config.maxMaterializedRows);
      EvictedProtects(s0, store, config.maxBytes, config.maxMaterializedRows);
      SameKeysGone(s0.order, mid.pages, store.pages);
      OrderStillFits(s0, store.order, store.pages, config.maxBytes);
    }

    // -------------------------------------------------------------- accepting

    method AcceptPage(p: Page, materialized: nat) returns (r: Result<PageId, CacheError>)
      requires Valid()
      modifies `store, `fetch, `log
      ensures Valid()
      ensures old(CheckPage(p)).Err? ==> r == Err(old(CheckPage(p)).error)
      ensures old(CheckPage(p)).Ok? ==> r == Ok(p.id)
      ensures old(CheckPage(p)) != Ok(New) ==> store == old(store) && fetch == old(fetch) && log == old(log)
      ensures old(CheckPage(p)) == Ok(New) ==>
                && Expected(old(fetch), p) && fetch == Advanced(old(fetch), p)
                && log == old(log) + [p]
                && Evicted(Inserted(old(store), p, Kept(p, materialized), old(log), digest),
                           store, config.maxBytes, config.maxMaterializedRows)
                && (LastWith(old(log), p.id) < 0 ==> p.id in store.pages)
                && (DistinctIds(log) ==> NewestFirst(old(store).pages, store.pages, log))
      ensures old(CheckPage(p)) == Ok(New) && old(store).bytes + |p.payload| <= config.maxBytes ==>
                && (materialized <= p.rows && old(store).rows + materialized <= config.maxMaterializedRows ==>
                      OnlyAdded(old(store), p, materialized, store))
                && (materialized >= p.rows && old(store).rows + p.rows <= config.maxMaterializedRows ==>
                      OnlyAdded(old(store), p, p.rows, store))
    {
      hide StoreSound, OrderBounded, WithinBudget, Evicted, Inserted, NewestFirst, OnlyAdded, Totals;
      hide IsReplayedPage, CheckPageOrder, CheckPageBudgets, Advanced;
      var check := CheckPage(p);
      CheckMeans(p);
      ghost var s0, log0 := store, log;
      StoreParts(s0, log0, Retired(fetch.state), digest);
      if check.Err? {
        return Err(check.error);
      }
      if check.value.Duplicate? {
        return Ok(check.value.id);
      }
      InsertPage(p, materialized);
      StoreParts(store, log, Retired(fetch.state), digest);
      if s0.bytes + |p.payload| <= config.maxBytes && s0.rows + Kept(p, materialized) <= config.maxMaterializedRows {
        AcceptFits(s0, p, Kept(p, materialized), log0, digest, store, config.maxBytes, config.maxMaterializedRows);
      }
      return Ok(p.id);
    }

    /** A page is new exactly if it is no replay, is the expected one, and fits the limits of the
        request and the budgets beside all pinned pages. */
    lemma CheckMeans(p: Page)
      requires Valid()
      ensures CheckPage(p) == Ok(New) <==>
                && IsReplayedPage(p) == Ok(false)
                && Expected(fetch, p)
                && 0 < |p.payload| <= Min(fetch.maxBytes, config.maxBytes - store.pinnedBytes)
                && p.rows <= Min(Min(fetch.maxRows, MAX_HISTORY_PAGE_ROWS), config.maxMaterializedRows - store.pinnedRows)
      ensures IsReplayedPage(p) == Ok(false) ==> p.id !in store.pages && forall c | c in store.consumed :: c.id != p.id
      ensures CheckPage(p).Ok? && CheckPage(p).value.Duplicate? ==> CheckPage(p).value.id == p.id
    {
      hide StoreSound;
    }

    /** What is reported of a page that is neither a replay nor new: the first thing wrong with it, in
        this order. */
    lemma PageErrors(p: Page)
      requires Valid() && IsReplayedPage(p) == Ok(false)
      ensures !fetch.state.Loading? || fetch.nextCursor != Some(p.id.cursor) ==> CheckPage(p) == Err(CursorGap)
      ensures fetch.state.Loading? && fetch.nextCursor == Some(p.id.cursor) ==>
                var expected := fetch.nextPageSeq.value;
                && (p.id.pageSeq != expected ==> CheckPage(p) == Err(SequenceGap(expected, p.id.pageSeq)))
                && (p.id.pageSeq == expected && !Expected(fetch, p) ==> CheckPage(p) == Err(SequenceExhausted))
      ensures Expected(fetch, p) && p.payload == [] ==> CheckPage(p) == Err(EmptyPayload)
      ensures Expected(fetch, p) && |p.payload| > config.maxBytes && config.maxBytes <= fetch.maxBytes ==>
                CheckPage(p) == Err(PageTooLarge(|p.payload|, config.maxBytes))
      ensures Expected(fetch, p) && |p.payload| > fetch.maxBytes && fetch.maxBytes <= config.maxBytes ==>
                CheckPage(p) == Err(PageTooLarge(|p.payload|, fetch.maxBytes))
      ensures Expected(fetch, p) && 0 < |p.payload| <= config.maxBytes && |p.payload| <= fetch.maxBytes ==>
                if p.rows > fetch.maxRows || p.rows > 4096 then CheckPage(p) == Err(ProjectionTooLarge(p.rows, fetch.maxRows))
                else if |p.payload| > config.maxBytes - store.pinnedBytes
                then CheckPage(p) == Err(PinnedBudget(store.pinnedBytes + |p.payload|, config.maxBytes))
                else if p.rows > config.maxMaterializedRows - store.pinnedRows
                then CheckPage(p) == Err(PinnedProjectionBudget(store.pinnedRows + p.rows, config.maxMaterializedRows))
                else CheckPage(p) == Ok(New)
    {
      hide StoreSound, OrderFits, OrderBounded;
    }

    /** The state change of accepting a page that passed every check. */
    method InsertPage(p: Page, materialized: nat)
      requires Valid()
      requires Expected(fetch, p) && p.id !in store.pages && p.payload != []
      requires forall c | c in store.consumed :: c.id != p.id
      requires store.pinnedBytes + |p.payload| <= config.maxBytes && store.pinnedRows <= config.maxMaterializedRows
      modifies `store, `fetch, `log
      ensures Valid()
      ensures fetch == Advanced(old(fetch), p) && log == old(log) + [p]
      ensures Evicted(Inserted(old(store), p, Kept(p, materialized), old(log), digest),
                      store, config.maxBytes, config.maxMaterializedRows)
      ensures LastWith(old(log), p.id) < 0 ==> p.id in store.pages
      ensures DistinctIds(log) ==> NewestFirst(old(store).pages, store.pages, log)
    {
      hide StoreSound, OrderBounded, WithinBudget, Evicted, NewestFirst, Digests, Recent, AccountedBytes, LastWith, Totals;
      hide PinsMatch, QueuesCover, Distinct, DistinctIds;
      ghost var s0, log0 := store, log;
      StoreParts(s0, log0, false, digest);
      var rows := Kept(p, materialized);
      store := store.(bytes := store.bytes + |p.payload|,
                      rows := store.rows + rows,
                      pages := store.pages[p.id := CachedPage(p.next, p.rows, p.payload, rows, 0)],
                      order := store.order + [p.id],
                      evictable := store.evictable + [p.id]);
      PushConsumed(p);
      fetch := Fetch(if p.next.Some? then Idle else Complete, p.next,
                     if p.next.None? then None
                     else Some(if p.next.value == p.id.cursor then p.id.pageSeq + 1 else 1),
                     0, 0);
      log := log + [p];
      InsertedSound(s0, p, rows, log0, digest);
      PageAdded(s0.pages, p.id, store.pages[p.id]);
      assert store == Inserted(s0, p, rows, log0, digest);
      ghost var c := store.pages[p.id];
      EvictToBudget();
      if DistinctIds(log) {
        NewestFirstOld(s0.pages, p.id, c, store.pages, log);
      }
      if LastWith(log0, p.id) < 0 {
        FirstAcceptSurvives(s0, p, rows, log0, digest, store, config.maxBytes, config.maxMaterializedRows);
      }
    }

    /** Rows of a page that are kept projected on arrival: as many as came, as the page declares
        and as the budget can hold, whichever is least. */
    function Kept(p: Page, materialized: nat): (n: nat)
      ensures n <= materialized && n <= p.rows && n <= config.maxMaterializedRows
      ensures n == materialized || n == p.rows || n == config.maxMaterializedRows
    {
      Min(Min(materialized, p.rows), config.maxMaterializedRows)
    }

    /** Remember the page's digest, forgetting the oldest one past the window. */
    method PushConsumed(p: Page)
      requires store.consumed == Digests(Recent(log), digest)
      requires store.consumedBytes == AccountedBytes(store.consumed)
      modifies `store
      ensures store.consumed == Digests(Recent(log + [p]), digest)
      ensures store.consumedBytes == AccountedBytes(store.consumed)
      ensures store == old(store).(consumed := store.consumed, consumedBytes := store.consumedBytes)
    {
      hide Digests, Recent, Consumed;
      ghost var s0 := store;
      var entry := Consumed(p, digest);
      WindowSlides(log, p, digest);
      AccountedAppend(store.consumed, entry);
      ghost var all := store.consumed + [entry];
      store := store.(consumed := store.consumed + [entry],
                      consumedBytes := store.consumedBytes + entry.accountedBytes);
      while |store.consumed| > WINDOW
        invariant store == s0.(consumed := store.consumed, consumedBytes := store.consumedBytes)
        invariant |store.consumed| <= |all| && store.consumed == all[|all| - |store.consumed|..]
        invariant |store.consumed| >= Min(|all|, WINDOW)
        invariant store.consumedBytes == AccountedBytes(store.consumed)
      {
        var oldest := store.consumed[0].accountedBytes;
        assert oldest <= store.consumedBytes;
        store := store.(consumedBytes := SatSub(store.consumedBytes, oldest),
                        consumed := store.consumed[1..]);
      }
    }

    // -------------------------------------------------------------- anchors

    function RemainingAnchorCapacity(): nat
      reads this
    {
      SatSub(config.maxMaterializedRows, |store.anchors|)
    }

    method Pin(id: PageId)
      requires StoreTotals(store)
      requires id in store.pages
      modifies `store
      ensures StoreTotals(store)
      ensures store == old(store).(pages := old(store).pages[id := old(store).pages[id].(pinCount := old(store).pages[id].pinCount + 1)],
                                   pinnedBytes := store.pinnedBytes, pinnedRows := store.pinnedRows)
    {
      var page := store.pages[id];
      var pinned := page.(pinCount := page.pinCount + 1);
      SumUpdate(store.pages, id, pinned, PayloadBytes);
      SumUpdate(store.pages, id, pinned, ProjectedRows);
      SumUpdate(store.pages, id, pinned, PinnedPayload);
      SumUpdate(store.pages, id, pinned, PinnedRows);
      if page.pinCount == 0 {
        store := store.(pinnedBytes := store.pinnedBytes + |page.payload|,
                        pinnedRows := store.pinnedRows + page.materializedRows);
      }
      store := store.(pages := store.pages[id := pinned]);
    }

    method Unpin(id: PageId)
      requires StoreTotals(store)
      requires id in store.pages
      modifies `store
      ensures StoreTotals(store)
      ensures var page := old(store).pages[id];
              store == old(store).(pages := old(store).pages[id := page.(pinCount := SatSub(page.pinCount, 1))],
                                   evictable := old(store).evictable + if page.pinCount == 1 then [id] else [],
                                   pinnedBytes := store.pinnedBytes, pinnedRows := store.pinnedRows)
    {
      var page := store.pages[id];
      var unpinned := page.(pinCount := SatSub(page.pinCount, 1));
      SumUpdate(store.pages, id, unpinned, PayloadBytes);
      SumUpdate(store.pages, id, unpinned, ProjectedRows);
      SumUpdate(store.pages, id, unpinned, PinnedPayload);
      SumUpdate(store.pages, id, unpinned, PinnedRows);
      if page.pinCount == 1 {
        assert |page.payload| <= store.pinnedBytes && page.materializedRows <= store.pinnedRows;
        store := store.(pinnedBytes := SatSub(store.pinnedBytes, |page.payload|),
                        pinnedRows := SatSub(store.pinnedRows, page.materializedRows),
                        evictable := store.evictable + [id]);
      }
      store := store.(pages := store.pages[id := unpinned]);
    }

    /** Give up one holder of every page in `ids`, in any order. */
    method UnpinAll(ids: set<PageId>)
      requires StoreTotals(store)
      requires PinsPlus(store.pages, store.anchors, ids) && ids <= store.pages.Keys
      requires QueuesCover(store.pages, store.evictable, store.order)
      modifies `store
      ensures StoreTotals(store)
      ensures PinsPlus(store.pages, store.anchors, {})
      ensures Repinned(old(store), store) && store.anchors == old(store).anchors
      ensures Freed(old(store).pages, ids, old(store).evictable, store.evictable)
    {
      hide PinsPlus, QueuesCover, SameContents, Freed;
      ghost var s0 := store;
      SameContentsSelf(store.pages);
      FreedNone(store.pages, store.evictable);
      var todo := ids;
      assert ids - todo == {};
      while todo != {}
        invariant StoreTotals(store) && store.anchors == s0.anchors
        invariant PinsPlus(store.pages, store.anchors, todo) && todo <= store.pages.Keys && todo <= ids
        invariant Repinned(s0, store)
        invariant SamePins(s0.pages, store.pages, todo)
        invariant Freed(s0.pages, ids - todo, s0.evictable, store.evictable)
        decreases todo
      {
        var id :| id in todo;
        UnpinStep(store.pages, store.anchors, store.evictable, store.order, todo, id);
        FreedStep(s0.pages, ids - todo, s0.evictable, store.evictable, id);
        assert ids - (todo - {id}) == (ids - todo) + {id};
        ghost var s1 := store;
        Unpin(id);
        SameContentsChain(s0.pages, s1.pages, store.pages);
        todo := todo - {id};
      }
      assert ids - todo == ids;
    }

    /** Add one holder of every page in `ids`. */
    method PinAll(ids: set<PageId>)
      requires StoreTotals(store)
      requires PinsPlus(store.pages, store.anchors, {})
      requires QueuesCover(store.pages, store.evictable, store.order)
      requires ids <= store.pages.Keys
      modifies `store
      ensures StoreTotals(store)
      ensures PinsPlus(store.pages, store.anchors, ids)
      ensures Repinned(old(store), store) && store.anchors == old(store).anchors
      ensures store.evictable == old(store).evictable
    {
      hide PinsPlus, QueuesCover, SameContents;
      ghost var s0 := store;
      SameContentsSelf(store.pages);
      var todo := ids;
      assert ids - todo == {};
      while todo != {}
        invariant todo <= ids
        invariant StoreTotals(store) && store.anchors == s0.anchors && store.evictable == s0.evictable
        invariant PinsPlus(store.pages, store.anchors, ids - todo)
        invariant Repinned(s0, store)
        decreases todo
      {
        var id :| id in todo;
        PinStep(store.pages, store.anchors, store.evictable, store.order, ids - todo, id);
        ghost var s1 := store;
        Pin(id);
        SameContentsChain(s0.pages, s1.pages, store.pages);
        assert ids - (todo - {id}) == (ids - todo) + {id};
        todo := todo - {id};
      }
      assert ids - todo == ids;
    }

    /** Unregister an anchor, if it is registered, and unpin its pages. */
    method ReleaseAnchor(anchor: AnchorId)
      requires StoreTotals(store)
      requires PinsMatch(store.pages, store.anchors)
      requires QueuesCover(store.pages, store.evictable, store.order)
      modifies `store
      ensures StoreTotals(store)
      ensures PinsPlus(store.pages, store.anchors, {})
      ensures Repinned(old(store), store)
      ensures store.anchors == old(store).anchors - {anchor} && |store.anchors| <= |old(store).anchors|
      ensures Freed(old(store).pages, Held(old(store).anchors, anchor), old(store).evictable, store.evictable)
    {
      hide PinsPlus, QueuesCover, SameContents, Freed;
      SameContentsSelf(store.pages);
      FreedNone(store.pages, store.evictable);
      if anchor in store.anchors {
        PinsSplit(store.pages, store.anchors, anchor);
        var held := store.anchors[anchor];
        AnchorCount(store.anchors - {anchor}, anchor, held);
        assert (store.anchors - {anchor})[anchor := held] == store.anchors;
        store := store.(anchors := store.anchors - {anchor});
        UnpinAll(held);
      } else {
        assert store.anchors - {anchor} == store.anchors;
        PinsPlusNone(store.pages, store.anchors);
      }
    }

    method RegisterAnchorPages(anchor: AnchorId, ids: set<PageId>) returns (err: Option<CacheError>)
      requires Valid()
      modifies `store
      ensures Valid()
      ensures err ==
              if anchor !in old(store).anchors && |old(store).anchors| >= config.maxMaterializedRows
              then Some(ProjectionTooLarge(|old(store).anchors| + 1, config.maxMaterializedRows))
              else if !(ids <= old(store).pages.Keys) then Some(PageUnavailable)
              else None
      ensures err.Some? ==> store == old(store)
      ensures err.None? ==>
                && store.anchors == old(store).anchors[anchor := ids]
                && Freed(old(store).pages, Held(old(store).anchors, anchor), old(store).evictable, store.evictable)
      ensures SameContents(old(store).pages, store.pages)
    {
      hide Freed, Held, StoreSound, OrderFits, NonEmpty, OrderBounded, WithinBudget, PinsPlus, PinsMatch, QueuesCover, SameContents, Totals, FetchValid, Normal;
      ghost var s0 := store;
      StoreParts(s0, log, Retired(fetch.state), digest);
      SameContentsSelf(store.pages);
      if anchor !in store.anchors {
        if 1 > RemainingAnchorCapacity() {
          return Some(ProjectionTooLarge(|store.anchors| + 1, config.maxMaterializedRows));
        }
      }
      if !(ids <= store.pages.Keys) {
        return Some(PageUnavailable);
      }
      ReleaseAnchor(anchor);
      hide Repinned;
      ghost var s1 := store;
      RepinnedAnchors(s0, s1, s1.anchors);
      PinAll(ids);
      RepinnedChain(s0, s1, store);
      RepinnedAnchors(s0, store, store.anchors[anchor := ids]);
      PinsJoin(store.pages, store.anchors, anchor, ids);
      store := store.(anchors := store.anchors[anchor := ids]);
      assert store.anchors == s0.anchors[anchor := ids];
      AnchorCount(s0.anchors, anchor, ids);
      RepinnedSound(s0, store, log, Retired(fetch.state), digest);
      RepinnedBounds(s0, store, log, config.maxBytes, config.maxMaterializedRows);
      return None;
    }

    /** Releasing an anchor unpins its pages; nothing is evicted by it. */
    method RemoveAnchor(anchor: AnchorId)
      requires Valid()
      modifies `store, `viewport, `unreadRows
      ensures Valid()
      ensures store.anchors == old(store).anchors - {anchor}
      ensures SameContents(old(store).pages, store.pages)
      ensures Freed(old(store).pages, Held(old(store).anchors, anchor), old(store).evictable, store.evictable)
      ensures viewport == if old(viewport) == Pinned(anchor) then Tail else old(viewport)
      ensures unreadRows == if old(viewport) == Pinned(anchor) then 0 else old(unreadRows)
    {
      hide Freed, Held, StoreSound, OrderFits, NonEmpty, OrderBounded, WithinBudget, PinsPlus, PinsMatch, QueuesCover, SameContents, Totals, Evicted, FetchValid, Normal;
      ghost var s0 := store;
      StoreParts(s0, log, Retired(fetch.state), digest);
      ReleaseAnchor(anchor);
      PinsPlusNone(store.pages, store.anchors);
      if viewport == Pinned(anchor) {
        viewport := Tail;
        unreadRows := 0;
      }
      ghost var s1 := store;
      RepinnedSound(s0, s1, log, Retired(fetch.state), digest);
      RepinnedBounds(s0, s1, log, config.maxBytes, config.maxMaterializedRows);
      StoreParts(s1, log, Retired(fetch.state), digest);
      EvictToBudget();
      EvictedIdle(s1, store, config.maxBytes, config.maxMaterializedRows);
    }

    // -------------------------------------------------------------- viewport

    method PinViewport(anchor: AnchorId) returns (err: Option<CacheError>)
      requires Valid()
      modifies `viewport
      ensures Valid()
      ensures err == if anchor in store.anchors then None else Some(AnchorUnavailable)
      ensures viewport == if err.None? then Pinned(anchor) else old(viewport)
    {
      hide StoreSound;
      if anchor !in store.anchors {
        return Some(AnchorUnavailable);
      }
      viewport := Pinned(anchor);
      return None;
    }

    method FollowTail()
      requires Valid()
      modifies `viewport, `unreadRows
      ensures Valid()
      ensures viewport == Tail && unreadRows == 0
    {
      hide StoreSound;
      viewport := Tail;
      unreadRows := 0;
    }

    method NoteLiveOutput(rows: U64)
      requires Valid()
      modifies `unreadRows
      ensures Valid()
      ensures unreadRows == if viewport.Pinned? then Min(old(unreadRows) + rows, U64_MAX) else 0
    {
      hide StoreSound;
      if viewport.Pinned? {
        unreadRows := if unreadRows + rows <= U64_MAX then unreadRows + rows else U64_MAX;
      }
    }

    // -------------------------------------------------------------- invalidation

    /** `mark_pruned`, `clear_presentation` and `tombstone` are this with their own state. */
    method Invalidate(terminal: LoadState)
      requires Valid()
      requires Retired(terminal)
      modifies `store, `fetch, `viewport, `unreadRows
      ensures Valid()
      ensures fetch == Invalidated(terminal) && store == Empty()
      ensures fetch.state == terminal && fetch.nextCursor.None? && store.pages == map[] && store.anchors == map[]
      ensures viewport == Tail && unreadRows == 0
    {
      hide StoreSound, DistinctIds, Recent;
      StoreParts(store, log, Retired(fetch.state), digest);
      store := Empty();
      fetch := Fetch(terminal, None, None, 0, 0);
      viewport, unreadRows := Tail, 0;
      EmptySound(log, digest);
    }

    /** A tombstone counts only while it names the cursor that is to be requested next. */
    method InvalidateCursor(cursor: Cursor, terminal: LoadState) returns (ok: bool)
      requires Valid()
      requires Retired(terminal)
      modifies `store, `fetch, `viewport, `unreadRows
      ensures Valid()
      ensures ok <==> old(fetch).nextCursor == Some(cursor)
      ensures ok ==> fetch == Invalidated(terminal) && store == Empty() && viewport == Tail && unreadRows == 0
      ensures !ok ==> fetch == old(fetch) && store == old(store) && viewport == old(viewport) && unreadRows == old(unreadRows)
    {
      hide StoreSound;
      if fetch.nextCursor != Some(cursor) {
        return false;
      }
      Invalidate(terminal);
      return true;
    }
  }

  /** `VecDeque::retain`: the order entries whose page is cached. */
  method Retain(order: seq<PageId>, pages: Pages) returns (kept: seq<PageId>)
    ensures forall id :: id in kept <==> id in order && id in pages
    ensures Distinct(order) ==> Distinct(kept)
    ensures Subsequence(kept, order)
    ensures |kept| + |Gone(order, pages)| <= |order|
  {
    hide Gone, Subsequence;
    kept := [];
    GoneNone(pages);
    SubsequenceSelf([]);
    assert order[..0] == [];
    for i := 0 to |order|
      invariant forall id :: id in kept <==> id in order[..i] && id in pages
      invariant Distinct(order) ==> Distinct(kept)
      invariant Subsequence(kept, order[..i])
      invariant |kept| + |Gone(order[..i], pages)| <= i
    {
      GoneStep(order, i, pages);
      assert order[..i + 1] == order[..i] + [order[i]];
      if order[i] in pages {
        SubsequenceKeep(kept, order[..i], order[i]);
        kept := kept + [order[i]];
      } else {
        SubsequenceSkip(kept, order[..i], order[i]);
      }
    }
    assert order[..|order|] == order;
  }

  lemma GoneNone(pages: Pages)
    ensures Gone([], pages) == {}
  {
  }

  lemma GoneStep(order: seq<PageId>, i: nat, pages: Pages)
    requires i < |order|
    ensures |Gone(order[..i + 1], pages)| <= |Gone(order[..i], pages)| + if order[i] in pages then 0 else 1
  {
    assert order[..i + 1] == order[..i] + [order[i]];
    if order[i] in pages {
      assert Gone(order[..i + 1], pages) == Gone(order[..i], pages);
    } else {
      assert Gone(order[..i + 1], pages) == Gone(order[..i], pages) + {order[i]};
    }
  }

  lemma PageAdded(pages: Pages, id: PageId, c: CachedPage)
    requires id !in pages
    ensures |pages[id := c]| == |pages| + 1
  {
    assert pages[id := c].Keys == pages.Keys + {id};
    assert |pages[id := c].Keys| == |pages[id := c]| && |pages.Keys| == |pages|;
  }

  lemma SameKeysGone(order: seq<PageId>, pages: Pages, pages': Pages)
    requires pages.Keys == pages'.Keys
    ensures Gone(order, pages) == Gone(order, pages') && |pages| == |pages'|
  {
    assert |pages.Keys| == |pages| && |pages'.Keys| == |pages'|;
  }

  lemma PagesFew(s: Store, log: seq<Page>, retired: bool, digest: Bytes -> Digest, maxBytes: nat, maxRows: nat)
    requires StoreSound(s, log, retired, digest) && WithinBudget(s, maxBytes, maxRows)
    ensures |s.pages| <= maxBytes
  {
    PagesWithinBytes(s.pages);
  }

  lemma AnchorCount(anchors: Anchors, a: AnchorId, ids: set<PageId>)
    ensures |anchors[a := ids]| == |anchors| + if a in anchors then 0 else 1
  {
    assert anchors[a := ids].Keys == anchors.Keys + {a};
    assert |anchors[a := ids].Keys| == |anchors[a := ids]| && |anchors.Keys| == |anchors|;
  }

  lemma {:induction false} DistinctFits(ids: seq<PageId>, s: set<PageId>)
    requires Distinct(ids)
    requires forall id | id in ids :: id in s
    ensures |ids| <= |s|
  {
    if ids != [] {
      var last := ids[|ids| - 1];
      DistinctFits(ids[..|ids| - 1], s - {last});
    }
  }
}
