/** The history cache against a network that may drop, delay, reorder and repeat the pages
    of one server chain. */
module HistoryProtocol {
  import opened Prelude
  import opened HistoryPages
  import opened HistoryLoad
  import opened HistoryEviction
  import opened HistoryStore
  import opened HistoryCaches

  // ---------------------------------------------------------------- the server

  /** How many pages directly before page `i` were sent for the same cursor. */
  ghost function SameBefore(chain: seq<Page>, i: nat): nat
    requires i < |chain|
  {
    if i == 0 || chain[i - 1].id.cursor != chain[i].id.cursor then 0 else SameBefore(chain, i - 1) + 1
  }

  /** Page `i` was sent for the cursor the page before it names, and the pages sent for one cursor
      in a row are counted from 1. */
  ghost predicate Numbered(chain: seq<Page>, i: nat)
    requires i < |chain|
  {
    && (i > 0 ==> chain[i - 1].next == Some(chain[i].id.cursor))
    && chain[i].id.pageSeq == SameBefore(chain, i) + 1
  }

  /** The whole history of one generation, newest page first: it starts at the newest cursor, each
      page leads to the next, the last one ends it, and an identity names one immutable page. */
  ghost predicate ServerChain(chain: seq<Page>, newest: Option<Cursor>) {
    && (newest.None? <==> chain == [])
    && (chain != [] ==> chain[0].id.cursor == newest.value && chain[|chain| - 1].next.None?)
    && (forall i | 0 <= i < |chain| :: Numbered(chain, i))
    && (forall i, j | 0 <= i < j < |chain| :: chain[i].id == chain[j].id ==> chain[i] == chain[j])
  }

  /** `q` is the page that the client takes to follow `p`. */
  ghost predicate Linked(p: Page, q: Page) {
    && (p.next == Some(p.id.cursor) ==> p.id.pageSeq < U64_MAX)
    && Successor(p) == Some(q.id)
  }

  /** The client's rule for the next identity is the server's. */
  lemma ChainLinked(chain: seq<Page>, newest: Option<Cursor>, i: nat)
    requires ServerChain(chain, newest) && 0 < i < |chain|
    ensures Linked(chain[i - 1], chain[i])
  {
    assert Numbered(chain, i) && Numbered(chain, i - 1);
  }

  lemma ChainEnds(chain: seq<Page>, newest: Option<Cursor>)
    requires ServerChain(chain, newest)
    ensures newest.None? <==> chain == []
    ensures chain != [] ==> chain[0].id == PageId(newest.value, 1) && chain[|chain| - 1].next.None?
  {
    assert chain != [] ==> Numbered(chain, 0);
  }

  /** A chain that ends never revisits an identity: it would have to go round for ever. */
  lemma {:induction false} ChainAcyclic(chain: seq<Page>, newest: Option<Cursor>, i: nat, j: nat)
    requires ServerChain(chain, newest)
    requires i < j < |chain|
    ensures chain[i].id != chain[j].id
    decreases |chain| - j
  {
    hide Numbered, SameBefore;
    ChainLinked(chain, newest, i + 1);
    if j + 1 < |chain| {
      ChainLinked(chain, newest, j + 1);
      ChainAcyclic(chain, newest, i + 1, j + 1);
    }
  }

  // ---------------------------------------------------------------- the load machine on the network

  datatype Progress = Progress(fetch: Fetch, log: seq<Page>)

  datatype Event =
    | Begin(maxBytes: U32, maxRows: U32)
    | Cancel(cursor: Cursor)
    | Deliver(page: Page, materialized: nat)
    | Retire(terminal: LoadState)
    | Reject(cursor: Cursor, tooSmall: bool, requiredBytes: U32, requiredRows: U32)
    | Register(anchor: AnchorId, ids: set<PageId>)
    | Remove(anchor: AnchorId)
    | PinView(anchor: AnchorId)
    | Follow
    | Live(rows: U64)

  /** A rejected request: nothing, if it is not the one in flight; else it is cancelled or, being too
      small, repeated with larger limits or the end of the generation. */
  predicate Answered(f: Fetch, cursor: Cursor, tooSmall: bool, f': Fetch) {
    if !f.state.Loading? || f.nextCursor != Some(cursor) then f' == f
    else if !tooSmall then f' == Cancelled(f, cursor)
    else
      || f' == Invalidated(Tombstoned)
      || (f' == f.(maxBytes := f'.maxBytes, maxRows := f'.maxRows) && f.maxBytes <= f'.maxBytes && f.maxRows <= f'.maxRows
          && f.maxBytes + f.maxRows < f'.maxBytes + f'.maxRows)
  }

  /** What one event may do to the load machine. A delivered page is some page of the chain,
      at any time and any number of times. */
  ghost predicate Step(chain: seq<Page>, s: Progress, e: Event, s': Progress) {
    match e
    case Begin(b, r) => s' == s.(fetch := Begun(s.fetch, b, r))
    case Cancel(c) => s' == s.(fetch := Cancelled(s.fetch, c))
    case Deliver(p, _) =>
      p in chain &&
      (s' == s || (Expected(s.fetch, p) && s' == Progress(Advanced(s.fetch, p), s.log + [p])))
    case Retire(t) => Retired(t) && s' == Progress(Invalidated(t), s.log)
    case Reject(c, tooSmall, _, _) => s'.log == s.log && Answered(s.fetch, c, tooSmall, s'.fetch)
    case _ => s' == s
  }

  ghost predicate Run(chain: seq<Page>, states: seq<Progress>, events: seq<Event>) {
    && |states| == |events| + 1
    && forall i | 0 <= i < |events| :: Step(chain, states[i], events[i], states[i + 1])
  }

  /** The accepted pages are a prefix of the chain, the expected identity is the next element,
      and `Complete` means all of it was accepted. */
  ghost predicate Follows(chain: seq<Page>, s: Progress) {
    && FetchValid(s.fetch)
    && s.log <= chain
    && (s.fetch.state.Complete? ==> s.log == chain)
    && (s.fetch.nextCursor.Some? ==>
          && |s.log| < |chain|
          && chain[|s.log|].id == PageId(s.fetch.nextCursor.value, s.fetch.nextPageSeq.value))
  }

  lemma StepFollows(chain: seq<Page>, newest: Option<Cursor>, s: Progress, e: Event, s': Progress)
    requires ServerChain(chain, newest)
    requires Follows(chain, s) && Step(chain, s, e, s')
    ensures Follows(chain, s')
    ensures s.log <= s'.log
  {
    hide ServerChain, SameBefore;
    ChainEnds(chain, newest);
    if e.Deliver? && s' != s {
      var n := |s.log|;
      var k :| 0 <= k < |chain| && chain[k] == e.page;
      if k < n {
        ChainAcyclic(chain, newest, k, n);
      } else if n < k {
        ChainAcyclic(chain, newest, n, k);
      }
      assert chain[..n + 1] == chain[..n] + [chain[n]];
      if n + 1 < |chain| {
        ChainLinked(chain, newest, n + 1);
      } else {
        assert chain[..n + 1] == chain;
      }
    }
  }

  /** Over every run, whatever the network does: the log is a prefix of the chain that only
      grows, what is asked for next is its next element, `Complete` means nothing is missing. */
  lemma {:induction false} RunFollows(chain: seq<Page>, newest: Option<Cursor>,
                                      states: seq<Progress>, events: seq<Event>, i: nat, j: nat)
    requires ServerChain(chain, newest)
    requires Run(chain, states, events) && states[0] == Progress(Started(newest), [])
    requires i <= j < |states|
    ensures Follows(chain, states[i]) && Follows(chain, states[j])
    ensures states[i].log <= states[j].log
    decreases j
  {
    hide ServerChain, SameBefore;
    if j == 0 {
      ChainEnds(chain, newest);
    } else {
      if i < j {
        RunFollows(chain, newest, states, events, i, j - 1);
      } else {
        RunFollows(chain, newest, states, events, j - 1, j - 1);
      }
      StepFollows(chain, newest, states[j - 1], events[j - 1], states[j]);
    }
  }

  /** Once no page is expected any more, by completion or by invalidation, no fetch ever starts
      and no page is ever accepted again; an invalidated generation stays invalidated. */
  lemma {:induction false} EndIsFinal(chain: seq<Page>, states: seq<Progress>, events: seq<Event>, i: nat, j: nat)
    requires Run(chain, states, events)
    requires i <= j < |states|
    requires FetchValid(states[i].fetch)
    requires states[i].fetch.state.Complete? || Retired(states[i].fetch.state)
    ensures states[j].log == states[i].log
    ensures !states[j].fetch.state.Idle? && !states[j].fetch.state.Loading? && states[j].fetch.nextCursor.None?
    ensures Retired(states[i].fetch.state) ==> Retired(states[j].fetch.state)
    ensures FetchValid(states[j].fetch)
    decreases j
  {
    if i < j {
      EndIsFinal(chain, states, events, i, j - 1);
      assert Step(chain, states[j - 1], events[j - 1], states[j]);
    }
  }

  // ---------------------------------------------------------------- the cache on the network

  /** The event leaves the registration of anchor `a` alone. */
  predicate Spares(e: Event, a: AnchorId) {
    match e
    case Register(x, _) => x != a
    case Remove(x) => x != a
    case Retire(_) => false
    case Reject(_, tooSmall, _, _) => !tooSmall
    case _ => true
  }

  /** Anchor `a` holds the same pages in both stores, and those pages are the same. */
  ghost predicate Protected(s: Store, s': Store, a: AnchorId) {
    a in s.anchors ==>
      && a in s'.anchors && s'.anchors[a] == s.anchors[a]
      && forall id | id in s.anchors[a] ::
           id in s.pages && id in s'.pages && SamePage(s.pages[id], s'.pages[id])
  }

  /** Accepting a page never takes a protected page away. */
  lemma AcceptProtects(s: Store, p: Page, rows: nat, log: seq<Page>, retired: bool, digest: Bytes -> Digest,
                       s': Store, maxBytes: nat, maxRows: nat, a: AnchorId)
    requires StoreSound(s, log, retired, digest)
    requires p.id !in s.pages
    requires Evicted(Inserted(s, p, rows, log, digest), s', maxBytes, maxRows)
    ensures Protected(s, s', a)
  {
    hide Digests, Recent, AccountedBytes, LastWith, Totals, QueuesCover, QueuesName, Evicted;
    var t := Inserted(s, p, rows, log, digest);
    EvictedProtects(t, s', maxBytes, maxRows);
    EvictedAnchors(t, s', maxBytes, maxRows);
    if a in s.anchors {
      forall id | id in s.anchors[a]
        ensures id in s.pages && id in s'.pages && SamePage(s.pages[id], s'.pages[id])
      {
        assert a in Holders(s.anchors, id);
        assert t.pages[id] == s.pages[id] && t.pages[id].pinCount > 0;
      }
    }
  }

  lemma RepinProtects(s: Store, s': Store, log: seq<Page>, retired: bool, digest: Bytes -> Digest, a: AnchorId)
    requires StoreSound(s, log, retired, digest)
    requires SameContents(s.pages, s'.pages)
    requires a in s.anchors ==> a in s'.anchors && s'.anchors[a] == s.anchors[a]
    ensures Protected(s, s', a)
  {
  }

  /** Hand a page to a cache. */
  method Take(c: HistoryCache, p: Page, materialized: nat, ghost chain: seq<Page>)
    requires c.Valid() && p in chain
    modifies c
    ensures c.Valid()
    ensures Step(chain, old(Progress(c.fetch, c.log)), Deliver(p, materialized), Progress(c.fetch, c.log))
    ensures forall a :: Protected(old(c.store), c.store, a)
  {
    hide StoreSound, OrderFits, NonEmpty, OrderBounded, WithinBudget, Evicted, Inserted, SameContents, Protected;
    hide NewestFirst, OnlyAdded, LastWith;
    hide HistoryCache.IsReplayedPage, HistoryCache.CheckPageOrder, HistoryCache.CheckPageBudgets;
    ghost var s0, log0, retired0 := c.store, c.log, Retired(c.fetch.state);
    c.CheckMeans(p);
    var isNew := c.CheckPage(p) == Ok(New);
    var _ := c.AcceptPage(p, materialized);
    forall a
      ensures Protected(s0, c.store, a)
    {
      if isNew {
        AcceptProtects(s0, p, c.Kept(p, materialized), log0, retired0, c.digest, c.store,
                       c.config.maxBytes, c.config.maxMaterializedRows, a);
      } else {
        ProtectedSelf(s0, log0, retired0, c.digest, a);
      }
    }
  }

  /** Apply one event to a cache. */
  method Apply(c: HistoryCache, e: Event, ghost chain: seq<Page>)
    requires c.Valid()
    requires e.Deliver? ==> e.page in chain
    requires e.Retire? ==> Retired(e.terminal)
    modifies c
    ensures c.Valid()
    ensures Step(chain, old(Progress(c.fetch, c.log)), e, Progress(c.fetch, c.log))
    ensures forall a | Spares(e, a) :: Protected(old(c.store), c.store, a)
  {
    hide StoreSound, OrderFits, NonEmpty, OrderBounded, WithinBudget, Evicted, Inserted, SameContents, Protected;
    hide HistoryCache.IsReplayedPage, HistoryCache.CheckPageOrder, HistoryCache.CheckPageBudgets;
    ghost var s0, log0, retired0 := c.store, c.log, Retired(c.fetch.state);
    SameContentsSelf(s0.pages);
    match e {
      case Begin(b, r) =>
        var _ := c.BeginFetchWithLimits(b, r);
      case Cancel(cursor) =>
        var _ := c.CancelFetch(cursor);
      case Deliver(p, m) =>
        Take(c, p, m, chain);
        return;
      case Retire(t) =>
        c.Invalidate(t);
        return;
      case Reject(cursor, tooSmall, bytes, rows) =>
        var _ := c.HistoryRejected(cursor, tooSmall, bytes, rows);
        if tooSmall {
          return;
        }
      case Register(anchor, ids) =>
        var _ := c.RegisterAnchorPages(anchor, ids);
      case Remove(anchor) =>
        c.RemoveAnchor(anchor);
      case PinView(anchor) =>
        var _ := c.PinViewport(anchor);
      case Follow =>
        c.FollowTail();
      case Live(rows) =>
        c.NoteLiveOutput(rows);
    }
    forall a | Spares(e, a) ensures Protected(s0, c.store, a) {
      RepinProtects(s0, c.store, log0, retired0, c.digest, a);
    }
  }

  lemma ProtectedChain(s: Store, t: Store, u: Store, a: AnchorId)
    requires Protected(s, t, a) && Protected(t, u, a)
    ensures Protected(s, u, a)
  {
  }

  lemma ProtectedSelf(s: Store, log: seq<Page>, retired: bool, digest: Bytes -> Digest, a: AnchorId)
    requires StoreSound(s, log, retired, digest)
    ensures Protected(s, s, a)
  {
  }

  /** A new cache driven by any events against any behaviour of the network: it ends valid, its
      load machine has made a run of the network, so what it accepted is a prefix of the chain. */
  method Drive(config: Config, newest: Option<Cursor>, digest: Bytes -> Digest, events: seq<Event>,
               ghost chain: seq<Page>)
    returns (c: HistoryCache, ghost states: seq<Progress>)
    requires ServerChain(chain, newest)
    requires forall e | e in events :: (e.Deliver? ==> e.page in chain) && (e.Retire? ==> Retired(e.terminal))
    ensures fresh(c) && c.Valid()
    ensures Run(chain, states, events) && states[|events|] == Progress(c.fetch, c.log)
    ensures c.log <= chain && (c.fetch.state.Complete? ==> c.log == chain)
    ensures |c.store.order| <= 2 * |c.store.pages| + 64
  {
    hide StoreSound, OrderFits, NonEmpty, OrderBounded, WithinBudget, Step, FetchValid, ServerChain;
    c := new HistoryCache(config, newest, digest);
    states := [Progress(c.fetch, c.log)];
    for i := 0 to |events|
      invariant fresh(c) && c.Valid()
      invariant |states| == i + 1 && states[i] == Progress(c.fetch, c.log)
      invariant states[0] == Progress(Started(newest), [])
      invariant forall k | 0 <= k < i :: Step(chain, states[k], events[k], states[k + 1])
    {
      Apply(c, events[i], chain);
      states := states + [Progress(c.fetch, c.log)];
    }
    RunFollows(chain, newest, states, events, 0, |events|);
    PrefixDistinct(chain, newest, c.log);
    OrderShort(c.store, c.log);
  }

  /** Along one server chain no identity is accepted twice, so the order queue stays short. */
  lemma PrefixDistinct(chain: seq<Page>, newest: Option<Cursor>, log: seq<Page>)
    requires ServerChain(chain, newest) && log <= chain
    ensures DistinctIds(log)
  {
    forall i, j | 0 <= i < j < |log|
      ensures log[i].id != log[j].id
    {
      ChainAcyclic(chain, newest, i, j);
    }
  }

  lemma OrderShort(s: Store, log: seq<Page>)
    requires OrderBounded(s, log) && DistinctIds(log)
    ensures |s.order| <= 2 * |s.pages| + 64
  {
  }

  /** While no event touches anchor `a`'s registration or retires the generation, the pages it
      protects stay cached and unchanged, whatever else happens. */
  method Endure(c: HistoryCache, a: AnchorId, events: seq<Event>, ghost chain: seq<Page>)
    requires c.Valid()
    requires forall e | e in events :: (e.Deliver? ==> e.page in chain) && Spares(e, a)
    modifies c
    ensures c.Valid()
    ensures Protected(old(c.store), c.store, a)
  {
    hide StoreSound, OrderFits, NonEmpty, OrderBounded, WithinBudget, Step, FetchValid, Protected;
    ghost var s0 := c.store;
    ProtectedSelf(s0, c.log, Retired(c.fetch.state), c.digest, a);
    for i := 0 to |events|
      invariant c.Valid()
      invariant Protected(s0, c.store, a)
    {
      ghost var s1 := c.store;
      Apply(c, events[i], chain);
      ProtectedChain(s0, s1, c.store, a);
    }
  }

  /** A request just sent with the default limits, and any demands a server may name in calling it
      too small again and again: every attempt stays within the two caps, and after fewer rejections
      than their sum the generation has ended. */
  method RejectAgain(c: HistoryCache, cursor: Cursor, demands: seq<(U32, U32)>) returns (n: nat)
    requires c.Valid() && c.fetch.state.Loading? && c.fetch.nextCursor == Some(cursor)
    requires c.fetch.maxBytes == c.config.requestMaxBytes && c.fetch.maxRows == c.config.requestMaxRows
    modifies c
    ensures c.Valid() && n <= |demands| && n < ByteCap(c.config) + RowCap(c.config)
    ensures n < |demands| ==> c.fetch == Invalidated(Tombstoned)
    ensures |demands| >= ByteCap(c.config) + RowCap(c.config) - 1 ==> c.fetch == Invalidated(Tombstoned)
    ensures c.fetch.state.Loading? ==> c.fetch.maxBytes <= ByteCap(c.config) && c.fetch.maxRows <= RowCap(c.config)
    ensures c.log == old(c.log)
  {
    hide StoreSound, OrderFits, NonEmpty, OrderBounded, WithinBudget, ByteCap, RowCap;
    n := 0;
    while n < |demands|
      invariant c.Valid() && n <= |demands| && c.log == old(c.log)
      invariant c.fetch.state.Loading? && c.fetch.nextCursor == Some(cursor)
      invariant c.fetch.maxBytes <= ByteCap(c.config) && c.fetch.maxRows <= RowCap(c.config)
      invariant c.fetch.maxBytes + c.fetch.maxRows >= n + 2
    {
      var r := c.HistoryRejected(cursor, true, demands[n].0, demands[n].1);
      n := n + 1;
      if r.value.None? {
        return;
      }
    }
  }
}
