/** The cursor-and-sequence load machine of one history generation: what the cache asks
    for next and the limits of the request in flight. */
module HistoryLoad {
  import opened Prelude
  import opened HistoryPages

  datatype LoadState = Idle | Loading | Complete | Gap | Stale | Pruned | Tombstoned | Cleared

  /** The states an invalidation may leave behind; none is ever left again. */
  predicate Retired(s: LoadState) {
    s.Gap? || s.Stale? || s.Pruned? || s.Tombstoned? || s.Cleared?
  }

  datatype Fetch = Fetch(
    state: LoadState,
    nextCursor: Option<Cursor>,
    nextPageSeq: Option<U64>,
    maxBytes: U32,
    maxRows: U32)

  /** Limits are non-zero exactly while loading; a next page is known exactly while more may come. */
  predicate FetchValid(f: Fetch) {
    && (f.state.Loading? <==> f.maxBytes > 0 && f.maxRows > 0)
    && (!f.state.Loading? ==> f.maxBytes == 0 && f.maxRows == 0)
    && (f.nextCursor.Some? <==> f.state.Idle? || f.state.Loading?)
    && (f.nextPageSeq.Some? <==> f.nextCursor.Some?)
    && (f.nextPageSeq.Some? ==> f.nextPageSeq.value >= 1)
  }

  /** A generation that starts at the newest cursor, or has no history at all. */
  function Started(newest: Option<Cursor>): (f: Fetch)
    ensures FetchValid(f) && (f.state.Complete? <==> newest.None?)
  {
    Fetch(if newest.Some? then Idle else Complete, newest, if newest.Some? then Some(1) else None, 0, 0)
  }

  function Begun(f: Fetch, maxBytes: U32, maxRows: U32): (f': Fetch)
    ensures FetchValid(f) ==> FetchValid(f')
    ensures f' == f || (f.state.Idle? && f'.state.Loading? && f'.nextCursor == f.nextCursor)
  {
    if f.state.Idle? && maxBytes > 0 && maxRows > 0 && f.nextCursor.Some?
    then f.(state := Loading, maxBytes := maxBytes, maxRows := maxRows)
    else f
  }

  function Cancelled(f: Fetch, cursor: Cursor): (f': Fetch)
    ensures FetchValid(f) ==> FetchValid(f')
  {
    if f.state.Loading? && f.nextCursor == Some(cursor)
    then f.(state := Idle, maxBytes := 0, maxRows := 0)
    else f
  }

  /** The page is the one the request in flight is waiting for. */
  predicate Expected(f: Fetch, p: Page) {
    && f.state.Loading?
    && f.nextCursor == Some(p.id.cursor)
    && f.nextPageSeq == Some(p.id.pageSeq)
    && !(p.next == Some(p.id.cursor) && p.id.pageSeq == U64_MAX)
  }

  /** The identity the page after `p` must carry, if there is one. */
  function Successor(p: Page): Option<PageId>
    requires p.next == Some(p.id.cursor) ==> p.id.pageSeq < U64_MAX
  {
    if p.next.None? then None
    else Some(PageId(p.next.value, if p.next.value == p.id.cursor then p.id.pageSeq + 1 else 1))
  }

  function Advanced(f: Fetch, p: Page): (f': Fetch)
    requires Expected(f, p)
    ensures FetchValid(f')
  {
    match Successor(p)
    case None => Fetch(Complete, None, None, 0, 0)
    case Some(id) => Fetch(Idle, Some(id.cursor), Some(id.pageSeq), 0, 0)
  }

  function Invalidated(s: LoadState): (f': Fetch)
    requires Retired(s)
    ensures FetchValid(f')
  {
    Fetch(s, None, None, 0, 0)
  }
}
