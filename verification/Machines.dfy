/** The paged machine inventory: loading, row operations, and the status sweep that re-reads
    the held pages after an invalidation. */
module Machines {
  import opened Prelude

  datatype Row = Row(index: U32, role: Byte, route: Byte, state: Byte, name: Bytes, endpoint: Bytes, session: Bytes, message: Bytes)

  datatype Page = Page(requestId: U32, generation: U32, total: U32, first: U32, status: Byte, rows: seq<Row>)

  /** The navigator operations; a status sweep is `STATUS`, on the wire a page request. */
  const REFRESH := 0
  const MORE := 1
  const FORGET := 5
  const BROWSE := 7
  const STATUS := 8

  /** The part of the machine state that loading and sweeping use; `browsing` says that a browse
      token is held. */
  datatype Inventory = Inventory(
    operation: nat,
    browsing: bool,
    statusFirst: U32,
    statusDirty: bool,
    requestId: U32,
    generation: U32,
    total: U32,
    rows: seq<Row>,
    loading: bool,
    failed: bool)

  /** The inventory, and whether the Machines view is open. */
  datatype View = View(open: bool, machines: Inventory)

  function Initial(): View {
    View(false, Inventory(0, false, 0, false, 0, 0, 0, [], false, false))
  }

  // ---------------------------------------------------------------- requests

  function RequestMachines(m: Inventory, operation: nat): Inventory
    requires operation <= STATUS
  {
    m.(operation := operation,
       requestId := (m.requestId + 1) % 0x1_0000_0000,
       statusFirst := if operation == STATUS then m.statusFirst else 0,
       statusDirty := if operation == REFRESH then false else m.statusDirty,
       loading := true)
  }

  function RequestStatus(m: Inventory, restart: bool): Inventory {
    RequestMachines(if restart then m.(statusFirst := 0, statusDirty := false) else m, STATUS)
  }

  function RequestOperation(m: Inventory, operation: nat): Inventory
    requires operation < STATUS
  {
    RequestMachines(m, operation).(browsing := operation == BROWSE)
  }

  // ---------------------------------------------------------------- merging rows

  /** The last row with this index, or the row held so far. */
  function LastFor(rows: seq<Row>, held: Row): Row {
    if rows == [] then held
    else if rows[|rows| - 1].index == held.index then rows[|rows| - 1]
    else LastFor(rows[..|rows| - 1], held)
  }

  function Merged(held: seq<Row>, rows: seq<Row>): (r: seq<Row>)
    ensures |r| == |held|
  {
    if held == [] then [] else Merged(held[..|held| - 1], rows) + [LastFor(rows, held[|held| - 1])]
  }

  /** The merge replaces rows by index, keeping their number and order. */
  lemma {:induction false} MergedAt(held: seq<Row>, rows: seq<Row>, i: nat)
    requires i < |held|
    ensures Merged(held, rows)[i] == LastFor(rows, held[i])
    ensures LastFor(rows, held[i]).index == held[i].index
  {
    LastForIndex(rows, held[i]);
    if i < |held| - 1 {
      MergedAt(held[..|held| - 1], rows, i);
    }
  }

  lemma {:induction false} LastForIndex(rows: seq<Row>, held: Row)
    ensures LastFor(rows, held).index == held.index
    ensures (forall r | r in rows :: r.index != held.index) ==> LastFor(rows, held) == held
    ensures LastFor(rows, held) == held || LastFor(rows, held) in rows
  {
    if rows != [] {
      LastForIndex(rows[..|rows| - 1], held);
    }
  }

  /** The row lists of an inventory after a page. */
  function UpdatedRows(m: Inventory, rows: seq<Row>): seq<Row> {
    if m.operation == REFRESH || m.operation == FORGET then rows
    else Merged(m.rows, rows) + if m.operation == MORE then rows else []
  }

  /** The two nested loops that compute it. */
  method UpdateRows(m: Inventory, page: seq<Row>) returns (rows: seq<Row>)
    ensures rows == UpdatedRows(m, page)
  {
    if m.operation == REFRESH || m.operation == FORGET {
      return page;
    }
    rows := [];
    for i := 0 to |m.rows|
      invariant rows == Merged(m.rows[..i], page)
    {
      var current := m.rows[i];
      for k := 0 to |page|
        invariant current == LastFor(page[..k], m.rows[i])
      {
        assert page[..k + 1][..k] == page[..k];
        if page[k].index == m.rows[i].index {
          current := page[k];
        }
      }
      assert page[..|page|] == page;
      assert m.rows[..i + 1][..i] == m.rows[..i];
      rows := rows + [current];
    }
    assert m.rows[..|m.rows|] == m.rows;
    ghost var merged := rows;
    if m.operation == MORE {
      for k := 0 to |page|
        invariant rows == merged + page[..k]
      {
        rows := rows + [page[k]];
      }
      assert page[..|page|] == page;
    } else {
      assert merged + [] == merged;
    }
  }

  // ---------------------------------------------------------------- replies

  predicate ValidStatusPage(m: Inventory, p: Page) {
    m.operation != STATUS || p.status != 0 ||
    (p.generation == m.generation && p.first == m.statusFirst && (p.rows != [] || p.first >= |m.rows|))
  }

  function AdvanceStatus(m: Inventory, p: Page): Inventory {
    if m.operation != STATUS then m.(statusFirst := 0)
    else
      var first := p.first + |p.rows|;
      if first >= |m.rows| then m.(statusFirst := 0)
      else m.(statusFirst := if first <= U32_MAX then first else 0)
  }

  /** `None` is a body that is not a page. */
  function Receive(m: Inventory, page: Option<Page>): Inventory {
    match page
    case None => m.(loading := false, failed := true)
    case Some(p) =>
      if p.requestId != m.requestId then m
      else if !ValidStatusPage(m, p) then m.(loading := false, failed := true)
      else if p.status != 0 && p.rows == [] then m.(loading := false, failed := true)
      else
        AdvanceStatus(m.(generation := p.generation, total := p.total, rows := UpdatedRows(m, p.rows),
                         loading := false, failed := p.status != 0), p)
  }

  /** After a reply: go on with the sweep, or start over for a held invalidation. */
  function ContinueStatus(m: Inventory): Inventory {
    if m.loading || m.failed then m
    else if m.statusFirst > 0 then RequestStatus(m, false)
    else if m.statusDirty then RequestStatus(m, true)
    else m
  }

  function Received(v: View, page: Option<Page>): View {
    var m := Receive(v.machines, page);
    if page.Some? && page.value.requestId != v.machines.requestId then v
    else if v.machines.operation == BROWSE && !m.failed && !m.loading then
      View(!m.browsing, m)
    else v.(machines := ContinueStatus(m))
  }

  // ---------------------------------------------------------------- the view over time

  datatype Event =
    | Open
    | Close
    | Refresh
    | More
    | RowOperation(operation: nat)
    | Loaded(page: Option<Page>)
    | LoadFailed
    | Invalidated

  /** A row may be acted on: nothing has failed, and no load but a sweep is in flight. */
  predicate Capturable(m: Inventory) {
    !m.failed && (!m.loading || m.operation == STATUS)
  }

  predicate Enabled(v: View, e: Event) {
    match e
    case RowOperation(o) => v.open && Capturable(v.machines) && (2 <= o <= 5 || o == BROWSE)
    case Refresh => v.open
    case More => v.open
    case _ => true
  }

  function Next(v: View, e: Event): View
    requires Enabled(v, e)
  {
    match e
    case Open => View(true, RequestOperation(v.machines, REFRESH))
    case Close => v.(open := false)
    case Refresh => v.(machines := RequestOperation(v.machines, REFRESH))
    case More => v.(machines := RequestOperation(v.machines, MORE))
    case RowOperation(o) => v.(machines := RequestOperation(v.machines, o))
    case Loaded(p) => if v.open then Received(v, p) else v
    case LoadFailed => if v.open then v.(machines := v.machines.(loading := false, failed := true)) else v
    case Invalidated => Noticed(v)
  }

  /** A new snapshot: hold the invalidation behind a load in flight, else sweep at once. */
  function Noticed(v: View): View {
    var m := v.machines;
    if !v.open then v
    else if m.loading then v.(machines := m.(statusDirty := true))
    else if m.generation == 0 || m.failed then v
    else v.(machines := RequestStatus(m, true))
  }

  ghost predicate Run(views: seq<View>, events: seq<Event>) {
    && |views| == |events| + 1 && views[0] == Initial()
    && forall i | 0 <= i < |events| :: Enabled(views[i], events[i]) && views[i + 1] == Next(views[i], events[i])
  }

  /** While the view is open, a held invalidation has a load in flight or a failure to explain
      why it is held; a browse reply always leaves the view; only a sweep has an offset. */
  ghost predicate ViewValid(v: View) {
    && (v.open && v.machines.statusDirty ==> v.machines.loading || v.machines.failed)
    && (v.machines.operation == BROWSE ==> v.machines.browsing)
    && (v.machines.operation != STATUS ==> v.machines.statusFirst == 0)
  }

  lemma {:induction false} RunKeepsDirty(views: seq<View>, events: seq<Event>, i: nat)
    requires Run(views, events) && i < |views|
    ensures ViewValid(views[i])
  {
    hide Next, Enabled;
    if i > 0 {
      RunKeepsDirty(views, events, i - 1);
      StepKeepsView(views[i - 1], events[i - 1]);
      assert views[i - 1 + 1] == Next(views[i - 1], events[i - 1]);
    }
  }

  lemma StepKeepsView(v: View, e: Event)
    requires ViewValid(v) && Enabled(v, e)
    ensures ViewValid(Next(v, e))
  {
    hide UpdatedRows;
    if e.Loaded? && v.open {
      ReplyKeepsView(v, e.page);
    }
  }

  lemma ReplyKeepsView(v: View, page: Option<Page>)
    requires ViewValid(v) && v.open
    ensures ViewValid(Received(v, page))
  {
    hide UpdatedRows;
  }

  // ---------------------------------------------------------------- a read is always issued

  /** A read from the first row on was issued: a page of the inventory afresh, or the first status
      request of a sweep. */
  predicate Rereads(v: View, v': View) {
    && v'.machines.loading && v'.machines.requestId == (v.machines.requestId + 1) % 0x1_0000_0000
    && (v'.machines.operation == REFRESH || (v'.machines.operation == STATUS && v'.machines.statusFirst == 0))
  }

  predicate Settled(v: View) {
    !v.machines.loading && !v.machines.failed
  }

  /** The condition under which an invalidation is acted on or held. */
  predicate Heard(v: View) {
    v.open && (v.machines.loading || (!v.machines.failed && v.machines.generation != 0))
  }

  lemma HeardExactly(v: View)
    ensures Heard(v) ==> (v.machines.loading && Noticed(v).machines.statusDirty) || Rereads(v, Noticed(v))
    ensures !Heard(v) ==> Noticed(v) == v
  {
  }

  /** A held invalidation stays held until a read from the first row on is issued. */
  lemma StepHolds(v: View, e: Event)
    requires ViewValid(v) && Enabled(v, e) && v.open && Next(v, e).open && v.machines.statusDirty
    ensures Next(v, e).machines.statusDirty || Rereads(v, Next(v, e))
  {
  }

  lemma {:induction false} HeldUntilReread(views: seq<View>, events: seq<Event>, i: nat, j: nat)
    requires Run(views, events) && i < j < |views|
    requires forall k | i <= k <= j :: views[k].open
    requires events[i].Invalidated? && Heard(views[i])
    ensures views[j].machines.statusDirty || exists k :: i <= k < j && Rereads(views[k], views[k + 1])
    decreases j
  {
    hide Next;
    if j == i + 1 {
      NoticedNext(views[i]);
      HeardExactly(views[i]);
      assert Rereads(views[i], views[i + 1]) || views[j].machines.statusDirty;
    } else {
      HeldUntilReread(views, events, i, j - 1);
      RunKeepsDirty(views, events, j - 1);
      assert views[j - 1 + 1] == Next(views[j - 1], events[j - 1]);
      if views[j - 1].machines.statusDirty {
        StepHolds(views[j - 1], events[j - 1]);
        assert views[j].machines.statusDirty || Rereads(views[j - 1], views[j - 1 + 1]);
      }
    }
  }

  lemma NoticedNext(v: View)
    ensures Next(v, Invalidated) == Noticed(v)
  {
  }

  /** While the view stays open, an invalidation that is heard has a read from the first row on
      issued, at or after it, before the inventory is settled again. */
  lemma RereadIssued(views: seq<View>, events: seq<Event>, i: nat, j: nat)
    requires Run(views, events) && i < j < |views|
    requires forall k | i <= k <= j :: views[k].open
    requires events[i].Invalidated? && Heard(views[i])
    requires Settled(views[j])
    ensures exists k :: i <= k < j && Rereads(views[k], views[k + 1])
  {
    HeldUntilReread(views, events, i, j);
    RunKeepsDirty(views, events, j);
  }

  // ---------------------------------------------------------------- the sweep

  predicate IndexedFrom(rows: seq<Row>, first: nat) {
    forall i | 0 <= i < |rows| :: rows[i].index == first + i
  }

  /** A reply to the request in flight. */
  predicate Matching(v: View, e: Event) {
    e.Loaded? && e.page.Some? && e.page.value.requestId == v.machines.requestId
  }

  /** A reply that the sweep takes, from a host that indexes rows by position. */
  predicate Answers(v: View, e: Event) {
    && Matching(v, e)
    && var p := e.page.value;
       && p.status == 0 && p.generation == v.machines.generation && p.first == v.machines.statusFirst
       && IndexedFrom(p.rows, p.first) && (p.rows != [] || v.machines.rows == [])
  }

  lemma {:induction false} LastForAt(rows: seq<Row>, held: Row, first: nat)
    requires IndexedFrom(rows, first)
    ensures LastFor(rows, held) == if first <= held.index < first + |rows| then rows[held.index - first] else held
  {
    if rows != [] {
      LastForAt(rows[..|rows| - 1], held, first);
    }
  }

  /** A sweep is in flight at its current offset. */
  ghost predicate Sweeping(v: View) {
    && v.open && v.machines.operation == STATUS && v.machines.loading && !v.machines.failed
    && IndexedFrom(v.machines.rows, 0)
    && (v.machines.statusFirst < |v.machines.rows| || v.machines.statusFirst == 0)
  }

  /** `rows'` is `rows` with `newer` laid over it from position `first` on. */
  ghost predicate Overlaid(rows: seq<Row>, rows': seq<Row>, first: nat, newer: seq<Row>) {
    && |rows'| == |rows|
    && forall i | 0 <= i < |rows| :: rows'[i] == if first <= i < first + |newer| then newer[i - first] else rows[i]
  }

  lemma OverlaidChain(a: seq<Row>, b: seq<Row>, c: seq<Row>, first: nat, x: seq<Row>, y: seq<Row>)
    requires Overlaid(a, b, first, x) && Overlaid(b, c, first + |x|, y)
    ensures Overlaid(a, c, first, x + y)
  {
  }

  lemma OverlaidNothing(a: seq<Row>, first: nat)
    ensures Overlaid(a, a, first, [])
  {
  }

  lemma MergedOverlaid(held: seq<Row>, rows: seq<Row>, first: nat)
    requires IndexedFrom(held, 0) && IndexedFrom(rows, first)
    ensures Overlaid(held, Merged(held, rows), first, rows)
    ensures IndexedFrom(Merged(held, rows), 0)
  {
    var merged := Merged(held, rows);
    forall i | 0 <= i < |held|
      ensures merged[i] == (if first <= i < first + |rows| then rows[i - first] else held[i]) && merged[i].index == i
    {
      MergedAt(held, rows, i);
      LastForAt(rows, held[i], first);
    }
  }

  /** An offset of a held row fits the wire. */
  lemma Addressable(rows: seq<Row>, i: nat)
    requires IndexedFrom(rows, 0) && i < |rows|
    ensures i <= U32_MAX
  {
    assert rows[i].index == i;
  }

  /** One reply replaces exactly the rows it covers, and the sweep goes on right behind them,
      ends, or, with an invalidation held, starts over. */
  lemma SweepStep(v: View, e: Event)
    requires Sweeping(v) && Answers(v, e)
    ensures var v', rows, next := Next(v, e), e.page.value.rows, v.machines.statusFirst + |e.page.value.rows|;
            && Overlaid(v.machines.rows, v'.machines.rows, v.machines.statusFirst, rows)
            && IndexedFrom(v'.machines.rows, 0)
            && v'.open && !v'.machines.failed
            && (next < |v.machines.rows| ==>
                  Sweeping(v') && v'.machines.statusFirst == next && v'.machines.statusDirty == v.machines.statusDirty)
            && (next >= |v.machines.rows| ==>
                  v'.machines.statusFirst == 0 && v'.machines.loading == v.machines.statusDirty && !v'.machines.statusDirty)
  {
    hide Merged, LastFor, Overlaid, IndexedFrom;
    var m, rows := v.machines, e.page.value.rows;
    MergedOverlaid(m.rows, rows, m.statusFirst);
    var merged := Merged(m.rows, rows);
    assert merged + [] == merged;
    if m.statusFirst + |rows| < |m.rows| {
      Addressable(m.rows, m.statusFirst + |rows|);
    }
  }

  /** What may come between two replies without disturbing the sweep: a further invalidation, or a
      reply to an older request. */
  predicate Stray(v: View, e: Event) {
    e.Invalidated? || (e.Loaded? && e.page.Some? && e.page.value.requestId != v.machines.requestId)
  }

  lemma StrayKeeps(v: View, e: Event)
    requires Sweeping(v) && Stray(v, e)
    ensures Next(v, e) == v.(machines := v.machines.(statusDirty := v.machines.statusDirty || e.Invalidated?))
    ensures Sweeping(Next(v, e))
  {
  }

  /** One pass of a sweep, or a part of it: replies for successive offsets, strays in between, and
      nothing behind the reply that reaches the end. */
  ghost predicate Pass(v: View, events: seq<Event>)
    decreases |events|
  {
    events == [] ||
    (&& (Stray(v, events[0]) ||
         (Answers(v, events[0]) &&
          (|events| > 1 ==> v.machines.statusFirst + |events[0].page.value.rows| < |v.machines.rows|)))
     && Pass(Next(v, events[0]), events[1..]))
  }

  function Play(v: View, events: seq<Event>): View
    requires forall i | 0 <= i < |events| :: events[i].Loaded? || events[i].Invalidated?
    decreases |events|
  {
    if events == [] then v else Play(Next(v, events[0]), events[1..])
  }

  /** The rows of the replies that are taken, in order, and their number. */
  function Taken(v: View, events: seq<Event>): (seq<Row>, nat)
    requires forall i | 0 <= i < |events| :: events[i].Loaded? || events[i].Invalidated?
    decreases |events|
  {
    if events == [] then ([], 0)
    else
      var (rows, n) := Taken(Next(v, events[0]), events[1..]);
      if Matching(v, events[0]) then (events[0].page.value.rows + rows, n + 1) else (rows, n)
  }

  /** Whatever comes in between, a sweep visits contiguous offsets, takes at most one reply per
      held row, and overwrites with the host's rows exactly what it has passed, without changing
      count or order. When it has passed every row it is over, or starts again if and only if an
      invalidation came in the meantime. */
  lemma {:induction false} SweepOverwrites(v: View, events: seq<Event>)
    requires Sweeping(v) && Pass(v, events)
    requires forall i | 0 <= i < |events| :: events[i].Loaded? || events[i].Invalidated?
    ensures var v', f, (rows, n) := Play(v, events), v.machines.statusFirst as int, Taken(v, events);
            && Overlaid(v.machines.rows, v'.machines.rows, f, rows)
            && n <= Max(1, |v.machines.rows| - f) && (n == 0 ==> rows == [])
            && (n == 0 || f + |rows| < |v.machines.rows| ==> Sweeping(v') && v'.machines.statusFirst == f + |rows|)
            && (n > 0 && f + |rows| >= |v.machines.rows| ==>
                  && v'.open && v'.machines.statusFirst == 0 && !v'.machines.failed
                  && (v'.machines.loading <==> v.machines.statusDirty || Invalidated in events))
    decreases |events|
  {
    hide Next, Overlaid, IndexedFrom, Answers, Sweeping;
    OverlaidNothing(v.machines.rows, v.machines.statusFirst);
    if events != [] {
      var e, rest := events[0], events[1..];
      var v1 := Next(v, e);
      if Stray(v, e) {
        StrayKeeps(v, e);
        SweepOverwrites(v1, rest);
      } else {
        AnswersSize(v, e);
        SweepStep(v, e);
        var rows := e.page.value.rows;
        OverlaidSize(v.machines.rows, v1.machines.rows, v.machines.statusFirst, rows);
        if rest != [] {
          SweepOverwrites(v1, rest);
          OverlaidChain(v.machines.rows, v1.machines.rows, Play(v1, rest).machines.rows, v.machines.statusFirst, rows, Taken(v1, rest).0);
        } else {
          assert rows + [] == rows;
        }
      }
    }
  }

  lemma OverlaidSize(rows: seq<Row>, rows': seq<Row>, first: nat, newer: seq<Row>)
    requires Overlaid(rows, rows', first, newer)
    ensures |rows'| == |rows|
  {
  }

  lemma AnswersSize(v: View, e: Event)
    requires Answers(v, e)
    ensures Matching(v, e) && (e.page.value.rows != [] || v.machines.rows == [])
  {
  }

  // ---------------------------------------------------------------- no invalidation is lost

  /** Each request is answered at most once. */
  predicate AnsweredOnce(v: View, e: Event) {
    v.open && (e.LoadFailed? || Matching(v, e) || (e.Loaded? && e.page.None?)) ==> v.machines.loading
  }

  /** The host indexes rows by position, in answer to what was asked. */
  predicate Positional(v: View, e: Event) {
    Matching(v, e) ==>
      var p, m := e.page.value, v.machines;
      && (m.operation == REFRESH || m.operation == FORGET ==> IndexedFrom(p.rows, 0))
      && (m.operation == MORE ==> IndexedFrom(p.rows, |m.rows|))
      && (m.operation == STATUS ==> IndexedFrom(p.rows, p.first))
  }

  /** Rows are held by position, and a sweep in flight stands at one of them. */
  ghost predicate Positioned(m: Inventory) {
    && IndexedFrom(m.rows, 0)
    && (m.loading && m.operation == STATUS ==> !m.failed && (m.statusFirst < |m.rows| || m.statusFirst == 0))
  }

  /** A request was issued at step `k` or later, before view `t`; the one in flight then is such a
      request. */
  ghost predicate Issued(views: seq<View>, k: nat, t: nat)
    requires t < |views|
  {
    exists s :: k <= s < t && views[s + 1].machines.requestId != views[s].machines.requestId
  }

  /** The rows a taken-up reply carries. */
  function Carries(v: View, e: Event): set<Row> {
    if v.open && Matching(v, e) then set r | r in e.page.value.rows else {}
  }

  /** The rows brought, up to event `j`, by replies to requests issued at step `k` or later. */
  ghost function Carried(views: seq<View>, events: seq<Event>, k: nat, j: nat): set<Row>
    requires k <= j <= |events| < |views|
  {
    if k == j then {}
    else Carried(views, events, k, j - 1) + if Issued(views, k, j - 1) then Carries(views[j - 1], events[j - 1]) else {}
  }

  ghost predicate AllSeen(rows: seq<Row>, seen: set<Row>) {
    forall i | 0 <= i < |rows| :: rows[i] in seen
  }

  /** A read that brings every row anew is in flight, or the last one failed. */
  predicate Rereading(m: Inventory) {
    m.failed || (m.loading && (m.operation == REFRESH || m.operation == FORGET || m.operation == BROWSE || m.operation == STATUS))
  }

  /** The event puts another request in the place of such a read, with no invalidation held that
      would start one over. */
  predicate Drops(v: View, e: Event) {
    && (e.More? || (e.RowOperation? && e.operation < FORGET))
    && Rereading(v.machines) && !v.machines.statusDirty
  }

  /** As long as not every row has been seen anew: the view is closed, the inventory has failed,
      an invalidation is held behind a load, or a read of everything is in flight, which, if it is
      a sweep, has seen the rows it has passed. */
  ghost predicate Owed(v: View, seen: set<Row>) {
    var m := v.machines;
    || !v.open
    || (m.failed && !m.loading)
    || (m.loading && m.statusDirty)
    || (m.loading && (m.operation == REFRESH || m.operation == FORGET || m.operation == BROWSE))
    || (m.loading && m.operation == STATUS && m.statusFirst <= |m.rows| && AllSeen(m.rows[..m.statusFirst], seen))
    || AllSeen(m.rows, seen)
  }

  /** What merging a page into held rows leaves: each row as it was, or one the page carries. */
  lemma MergedSeen(held: seq<Row>, rows: seq<Row>, seen: set<Row>)
    requires IndexedFrom(held, 0)
    ensures IndexedFrom(Merged(held, rows), 0)
    ensures AllSeen(held, seen) ==> AllSeen(Merged(held, rows), seen + set r | r in rows)
  {
    var merged := Merged(held, rows);
    forall i | 0 <= i < |held|
      ensures merged[i].index == i && (merged[i] == held[i] || merged[i] in rows)
    {
      MergedAt(held, rows, i);
      LastForIndex(rows, held[i]);
    }
  }

  lemma UpdatedSeen(v: View, e: Event, seen: set<Row>)
    requires v.open && Matching(v, e) && Positioned(v.machines) && Positional(v, e)
    ensures var rows, seen' := UpdatedRows(v.machines, e.page.value.rows), seen + Carries(v, e);
            && IndexedFrom(rows, 0)
            && (AllSeen(v.machines.rows, seen) || v.machines.operation == REFRESH || v.machines.operation == FORGET ==>
                  AllSeen(rows, seen'))
  {
    hide Merged, LastFor;
    var m, rows := v.machines, e.page.value.rows;
    MergedSeen(m.rows, rows, seen);
    assert Carries(v, e) == set r | r in rows;
  }

  lemma StepPositioned(v: View, e: Event)
    requires Enabled(v, e) && Positioned(v.machines) && Positional(v, e)
    ensures Positioned(Next(v, e).machines)
  {
    hide IndexedFrom, UpdatedRows;
    if v.open && Matching(v, e) {
      UpdatedSeen(v, e, {});
    }
  }

  /** A reply that leaves the view settled brings what was owed. */
  lemma ReplyOwed(v: View, e: Event, seen: set<Row>)
    requires v.open && Matching(v, e) && ViewValid(v) && Positioned(v.machines)
    requires Positional(v, e) && v.machines.loading && Owed(v, seen)
    ensures Owed(Next(v, e), seen + Carries(v, e))
  {
    if v.machines.operation == STATUS {
      StatusReplyOwed(v, e, seen);
    } else {
      UpdatedSeen(v, e, seen);
      hide IndexedFrom, UpdatedRows, Carries, AllSeen;
      StartSeen(Next(v, e).machines.rows, seen + Carries(v, e));
    }
  }

  lemma StatusReplyOwed(v: View, e: Event, seen: set<Row>)
    requires v.open && Matching(v, e) && ViewValid(v) && Positioned(v.machines)
    requires Positional(v, e) && v.machines.loading && Owed(v, seen) && v.machines.operation == STATUS
    ensures Owed(Next(v, e), seen + Carries(v, e))
  {
    UpdatedSeen(v, e, seen);
    hide IndexedFrom, UpdatedRows, Carries, AllSeen, Positional;
    var m, p, seen' := v.machines, e.page.value, seen + Carries(v, e);
    if p.status == 0 && ValidStatusPage(m, p) && !m.statusDirty {
      SeenPrefix(m.rows, seen, m.statusFirst);
      PassedSeen(v, e, seen);
      var rows := UpdatedRows(m, p.rows);
      assert rows[..|rows|] == rows;
      if m.statusFirst + |p.rows| < |rows| {
        Addressable(rows, m.statusFirst + |p.rows|);
      }
    }
    StatusRows(m, p.rows);
    StartSeen(Next(v, e).machines.rows, seen');
  }

  lemma StartSeen(rows: seq<Row>, seen: set<Row>)
    ensures AllSeen(rows[..0], seen)
  {
  }

  lemma SeenPrefix(rows: seq<Row>, seen: set<Row>, n: nat)
    requires n <= |rows|
    ensures AllSeen(rows, seen) ==> AllSeen(rows[..n], seen)
  {
  }

  lemma StatusRows(m: Inventory, rows: seq<Row>)
    ensures m.operation == STATUS ==> |UpdatedRows(m, rows)| == |m.rows|
  {
  }

  /** A sweep that has seen what it has passed has, with one more reply, seen what it passes now. */
  lemma PassedSeen(v: View, e: Event, seen: set<Row>)
    requires v.open && Matching(v, e) && Positioned(v.machines) && Positional(v, e)
    requires v.machines.operation == STATUS && v.machines.loading
    requires e.page.value.status == 0 && ValidStatusPage(v.machines, e.page.value)
    requires v.machines.statusFirst <= |v.machines.rows| && AllSeen(v.machines.rows[..v.machines.statusFirst], seen)
    ensures var rows, seen' := UpdatedRows(v.machines, e.page.value.rows), seen + Carries(v, e);
            var next := v.machines.statusFirst + |e.page.value.rows|;
            && |rows| == |v.machines.rows|
            && AllSeen(rows[..Min(next, |rows|)], seen')
  {
    var m, newer := v.machines, e.page.value.rows;
    MergedOverlaid(m.rows, newer, m.statusFirst);
    var rows := Merged(m.rows, newer);
    assert rows + [] == rows;
    hide Merged, LastFor;
    forall i | 0 <= i < Min(m.statusFirst + |newer|, |rows|)
      ensures rows[i] in seen + Carries(v, e)
    {
      if i < m.statusFirst {
        assert m.rows[..m.statusFirst][i] in seen;
      } else {
        assert newer[i - m.statusFirst] in newer;
      }
    }
  }

  /** Every event keeps what is owed, except one that drops a read before it has brought all rows. */
  lemma StepOwed(v: View, e: Event, seen: set<Row>)
    requires Enabled(v, e) && ViewValid(v) && Positioned(v.machines) && AnsweredOnce(v, e) && Positional(v, e)
    requires Owed(v, seen) && (Drops(v, e) ==> AllSeen(v.machines.rows, seen))
    ensures Owed(Next(v, e), seen + Carries(v, e))
  {
    if v.open && Matching(v, e) {
      ReplyOwed(v, e, seen);
    } else {
      assert seen + Carries(v, e) == seen;
      assert v.machines.rows[..0] == [];
    }
  }

  /** Up to event `j` the host answers once and by position. */
  ghost predicate HostKeeps(views: seq<View>, events: seq<Event>, j: nat)
    requires j <= |events| < |views|
  {
    forall t | 0 <= t < j :: AnsweredOnce(views[t], events[t]) && Positional(views[t], events[t])
  }

  /** From step `k` up to event `j` no read is dropped before it has brought all rows. */
  ghost predicate Undropped(views: seq<View>, events: seq<Event>, k: nat, j: nat)
    requires j <= |events| < |views|
  {
    forall t | k < t < j && Drops(views[t], events[t]) ::
      AllSeen(views[t].machines.rows, Carried(views, events, k, t))
  }

  lemma HostKeepsStep(views: seq<View>, events: seq<Event>, j: nat)
    requires j < |events| < |views| && HostKeeps(views, events, j + 1)
    ensures HostKeeps(views, events, j) && AnsweredOnce(views[j], events[j]) && Positional(views[j], events[j])
  {
  }

  lemma UndroppedStep(views: seq<View>, events: seq<Event>, k: nat, j: nat)
    requires k < j < |events| < |views| && Undropped(views, events, k, j + 1)
    ensures Undropped(views, events, k, j)
    ensures Drops(views[j], events[j]) ==> AllSeen(views[j].machines.rows, Carried(views, events, k, j))
  {
  }

  /** At step `k` an invalidation is heard, or a read from the first row on is issued. */
  ghost predicate Begins(views: seq<View>, events: seq<Event>, k: nat)
    requires k < |events| && k + 1 < |views|
  {
    (events[k].Invalidated? && Heard(views[k])) || Rereads(views[k], views[k + 1])
  }

  lemma {:induction false} RunPositioned(views: seq<View>, events: seq<Event>, i: nat)
    requires Run(views, events) && i < |views|
    requires HostKeeps(views, events, i)
    ensures Positioned(views[i].machines)
  {
    if i > 0 {
      HostKeepsStep(views, events, i - 1);
      RunPositioned(views, events, i - 1);
      StepPositioned(views[i - 1], events[i - 1]);
      assert views[i - 1 + 1] == Next(views[i - 1], events[i - 1]);
    }
  }

  /** A request issued while an invalidation is held leaves everything owed. */
  lemma IssueOwes(v: View, e: Event)
    requires Enabled(v, e) && ViewValid(v) && v.machines.statusDirty
    requires Next(v, e).machines.requestId != v.machines.requestId
    ensures Owed(Next(v, e), {})
  {
    assert Next(v, e).machines.rows[..0] == [];
  }

  lemma QuietHolds(v: View, e: Event)
    requires Enabled(v, e) && ViewValid(v) && v.machines.statusDirty
    requires Next(v, e).machines.requestId == v.machines.requestId
    ensures Next(v, e).machines.statusDirty
  {
  }

  /** Until a request is issued the invalidation is held; from then on, what is missing is owed. */
  ghost predicate HeldOrOwed(views: seq<View>, events: seq<Event>, k: nat, j: nat)
    requires k <= j <= |events| < |views|
  {
    if Issued(views, k, j) then Owed(views[j], Carried(views, events, k, j))
    else views[j].machines.statusDirty && Carried(views, events, k, j) == {}
  }

  lemma IssuedStep(views: seq<View>, k: nat, t: nat)
    requires k <= t && t + 1 < |views|
    ensures Issued(views, k, t + 1) <==> Issued(views, k, t) || views[t + 1].machines.requestId != views[t].machines.requestId
  {
  }

  lemma HeldStep(views: seq<View>, events: seq<Event>, k: nat, j: nat)
    requires Run(views, events) && k < j < |events| && HeldOrOwed(views, events, k, j)
    requires HostKeeps(views, events, j + 1) && Undropped(views, events, k, j + 1)
    ensures HeldOrOwed(views, events, k, j + 1)
  {
    hide Run, Next, Enabled, Owed, AllSeen, AnsweredOnce, Positional, Positioned, Drops, Carries, ViewValid;
    hide HostKeeps, Undropped, Issued;
    RunStep(views, events, j);
    HostKeepsStep(views, events, j);
    UndroppedStep(views, events, k, j);
    RunKeepsDirty(views, events, j);
    RunPositioned(views, events, j);
    IssuedStep(views, k, j);
    if Issued(views, k, j) {
      StepOwed(views[j], events[j], Carried(views, events, k, j));
    } else if views[j + 1].machines.requestId != views[j].machines.requestId {
      IssueOwes(views[j], events[j]);
      assert Carried(views, events, k, j + 1) == {};
    } else {
      QuietHolds(views[j], events[j]);
      assert Carried(views, events, k, j + 1) == {};
    }
  }

  lemma {:induction false} RunOwed(views: seq<View>, events: seq<Event>, k: nat, j: nat)
    requires Run(views, events) && k < j <= |events| && Begins(views, events, k)
    requires HostKeeps(views, events, j) && Undropped(views, events, k, j)
    ensures HeldOrOwed(views, events, k, j)
    decreases j
  {
    hide Next, Enabled, HeldOrOwed, Begins, HostKeeps, Undropped;
    if j == k + 1 {
      BeginsOwed(views, events, k);
    } else {
      HostKeepsStep(views, events, j - 1);
      UndroppedStep(views, events, k, j - 1);
      RunOwed(views, events, k, j - 1);
      HeldStep(views, events, k, j - 1);
    }
  }

  lemma RunStep(views: seq<View>, events: seq<Event>, i: nat)
    requires Run(views, events) && i < |events|
    ensures |views| == |events| + 1 && Enabled(views[i], events[i]) && views[i + 1] == Next(views[i], events[i])
  {
  }

  lemma BeginsOwed(views: seq<View>, events: seq<Event>, k: nat)
    requires Run(views, events) && k < |events| && Begins(views, events, k)
    ensures HeldOrOwed(views, events, k, k + 1)
  {
    RunStep(views, events, k);
    IssuedStep(views, k, k);
    assert views[k + 1].machines.rows[..0] == [];
    assert Carried(views, events, k, k) == {};
  }

  /** No invalidation is lost: once the inventory is settled in an open view after an invalidation
      that was heard, or after any read from the first row on, every row it holds stands in a reply
      to a request issued since then. A reply to a request that was already on its way when the
      invalidation came does not count. Further invalidations, replies to older requests, failures,
      refreshes, closing and opening the view may all come in between; the one condition is that
      no other request takes the place of an unfinished or failed read (`Drops`) while there are
      rows no such reply has brought. */
  lemma NoInvalidationLost(views: seq<View>, events: seq<Event>, k: nat, j: nat)
    requires Run(views, events) && k < j <= |events| && Begins(views, events, k)
    requires HostKeeps(views, events, j) && Undropped(views, events, k, j)
    requires views[j].open && Settled(views[j])
    ensures IndexedFrom(views[j].machines.rows, 0)
    ensures forall i | 0 <= i < |views[j].machines.rows| :: Brought(views, events, k, j, views[j].machines.rows[i])
  {
    hide HostKeeps, Undropped, Begins, Issued, Brought, Next;
    RunOwed(views, events, k, j);
    RunKeepsDirty(views, events, j);
    RunPositioned(views, events, j);
    var rows := views[j].machines.rows;
    forall i | 0 <= i < |rows|
      ensures Brought(views, events, k, j, rows[i])
    {
      CarriedBy(views, events, k, j, rows[i]);
    }
  }

  /** The row stands in a reply, between step `k` and event `j`, to a request issued since `k`. */
  ghost predicate Brought(views: seq<View>, events: seq<Event>, k: nat, j: nat, r: Row)
    requires j <= |events| < |views|
  {
    exists t :: k < t < j && Issued(views, k, t) && r in Carries(views[t], events[t])
  }

  lemma {:induction false} CarriedBy(views: seq<View>, events: seq<Event>, k: nat, j: nat, r: Row)
    requires k <= j <= |events| < |views|
    ensures r in Carried(views, events, k, j) <==> Brought(views, events, k, j, r)
    decreases j
  {
    hide Carries;
    if k < j {
      CarriedBy(views, events, k, j - 1, r);
      assert Issued(views, k, j - 1) ==> k < j - 1;
    }
  }

  /** The condition is exact. Asking for more rows, or acting on a row, leads after a successful
      reply to a settled inventory precisely if no invalidation was held; a row that had not been
      seen anew, and that the reply does not replace, is then still the old one, and no read that
      would bring it is on its way. */
  lemma DropLeavesOld(v: View, e: Event, p: Page, seen: set<Row>, i: nat)
    requires v.open && Enabled(v, e) && (e.More? || (e.RowOperation? && e.operation < FORGET))
    requires i < |v.machines.rows| && v.machines.rows[i] !in seen
    requires p.requestId == (v.machines.requestId + 1) % 0x1_0000_0000 && p.status == 0
    requires forall r | r in p.rows :: r.index != v.machines.rows[i].index
    ensures var a := Next(v, e);
            var b := Next(a, Loaded(Some(p)));
            && b.open && i < |b.machines.rows| && b.machines.rows[i] == v.machines.rows[i]
            && !AllSeen(b.machines.rows, seen + Carries(v, e) + Carries(a, Loaded(Some(p))))
            && (Settled(b) <==> !v.machines.statusDirty)
            && (Rereads(a, b) <==> v.machines.statusDirty)
            && !Rereads(v, a)
  {
    var rows := v.machines.rows;
    MergedAt(rows, p.rows, i);
    LastForIndex(p.rows, rows[i]);
    var a := Next(v, e);
    var b := Next(a, Loaded(Some(p)));
    assert b.machines.rows[i] == rows[i];
    assert rows[i] !in p.rows;
  }

  /** The condition is exact over runs as well: whenever an event drops a read while some row has
      not been brought since step `k`, any successful answer to it that does not replace that row
      settles the inventory with the row still not brought. */
  lemma DropLosesInvalidation(views: seq<View>, events: seq<Event>, k: nat, e: Event, p: Page, i: nat)
    returns (a: View, b: View)
    requires Run(views, events) && HostKeeps(views, events, |events|)
    requires var v := views[|events|];
             && v.open && Enabled(v, e) && Drops(v, e)
             && i < |v.machines.rows| && !Brought(views, events, k, |events|, v.machines.rows[i])
             && p.requestId == (v.machines.requestId + 1) % 0x1_0000_0000 && p.status == 0
             && (forall r | r in p.rows :: r.index != v.machines.rows[i].index)
             && Positional(Next(v, e), Loaded(Some(p)))
    ensures a == Next(views[|events|], e) && b == Next(a, Loaded(Some(p)))
    ensures var views', events' := views + [a, b], events + [e, Loaded(Some(p))];
            && Run(views', events') && HostKeeps(views', events', |events'|)
            && b.open && Settled(b) && !Rereads(views[|events|], a) && !Rereads(a, b)
            && i < |b.machines.rows| && b.machines.rows[i] == views[|events|].machines.rows[i]
            && !Brought(views', events', k, |events'|, b.machines.rows[i])
  {
    var v, l := views[|events|], Loaded(Some(p));
    a := Next(v, e);
    b := Next(a, l);
    DropLeavesOld(v, e, p, {}, i);
    DropKeepsHost(v, e, p);
    RunGoesOn(views, events, e, l);
    var r := v.machines.rows[i];
    assert r !in Carries(v, e) && r !in Carries(a, l);
    hide Next, Enabled, Carries, AnsweredOnce, Positional, Run;
    var views', events' := views + [a, b], events + [e, l];
    BroughtBefore(views, views', events, events', k, r);
    assert views'[|events|] == v && views'[|events| + 1] == a;
    HostKeepsOn(views, events, views', events');
  }

  lemma DropKeepsHost(v: View, e: Event, p: Page)
    requires v.open && Enabled(v, e) && Drops(v, e)
    ensures AnsweredOnce(v, e) && Positional(v, e) && AnsweredOnce(Next(v, e), Loaded(Some(p)))
  {
  }

  lemma RunGoesOn(views: seq<View>, events: seq<Event>, e: Event, l: Event)
    requires Run(views, events) && Enabled(views[|events|], e) && Enabled(Next(views[|events|], e), l)
    ensures var a := Next(views[|events|], e); Run(views + [a, Next(a, l)], events + [e, l])
  {
    hide Next, Enabled;
  }

  lemma HostKeepsOn(views: seq<View>, events: seq<Event>, views': seq<View>, events': seq<Event>)
    requires |events| + 2 == |events'| && |events| < |views| && |events'| < |views'|
    requires events <= events' && views <= views' && HostKeeps(views, events, |events|)
    requires forall t | |events| <= t < |events'| :: AnsweredOnce(views'[t], events'[t]) && Positional(views'[t], events'[t])
    ensures HostKeeps(views', events', |events'|)
  {
    hide AnsweredOnce, Positional;
    assert forall t | 0 <= t < |events| :: views'[t] == views[t] && events'[t] == events[t];
  }

  /** What was not brought before is brought only by what came since. */
  lemma BroughtBefore(views: seq<View>, views': seq<View>, events: seq<Event>, events': seq<Event>, k: nat, r: Row)
    requires |views| == |events| + 1 && |events'| < |views'| && events <= events' && views <= views'
    requires !Brought(views, events, k, |events|, r)
    requires forall t | |events| <= t < |events'| :: r !in Carries(views'[t], events'[t])
    ensures !Brought(views', events', k, |events'|, r)
  {
    hide Carries;
    forall t | k < t < |events'| && r in Carries(views'[t], events'[t])
      ensures !Issued(views', k, t)
    {
      assert t < |events|;
      assert views'[t] == views[t] && events'[t] == events[t];
      assert !Issued(views, k, t);
      assert forall s | 0 <= s <= t :: views'[s] == views[s];
    }
  }

  // ---------------------------------------------------------------- invalidations that are lost

  /** The row's state permits the operation: connect, retry, disconnect, forget or browse. */
  predicate Permits(r: Row, operation: nat) {
    var busy := r.state == 1 || r.state == 3;
    match operation
    case 2 => r.route < 3 && r.state == 0
    case 3 => r.route < 3 && r.state == 4
    case 4 => r.role != 0 && r.state == 2
    case 5 => r.role != 0 && r.state != 2 && !busy
    case 7 => r.route < 3 && r.state == 2
    case _ => false
  }

  /** The operation that picking a row stands for, if any: browse, retry or connect. */
  function Picked(r: Row): Option<nat> {
    if r.route >= 3 || r.state == 1 || r.state == 3 then None
    else Some(if r.state == 2 then BROWSE else if r.state == 4 then 3 else 2)
  }

  /** A row permits the operation that picking it stands for and no other of the three; this machine
      itself, and one that is busy connecting, can be neither disconnected nor forgotten, and any
      other can be exactly one of these. */
  lemma PermitsExactly(r: Row)
    requires r.state <= 4
    ensures forall o | o in [2, 3, 7] :: Permits(r, o) <==> Picked(r) == Some(o)
    ensures r.role == 0 || r.state in [1, 3] ==> !Permits(r, 4) && !Permits(r, 5)
    ensures r.role != 0 && r.state in [0, 4] ==> Permits(r, 5) && !Permits(r, 4)
    ensures r.role != 0 && r.state == 2 ==> Permits(r, 4) && !Permits(r, 5)
    ensures forall o | Permits(r, o) :: o in [2, 3, 4, 5, 7]
  {
  }

  /** The view offers the event: more rows only when the host has more, an operation only on a
      row that permits it. */
  predicate Offered(v: View, e: Event) {
    && (e.More? ==> |v.machines.rows| < v.machines.total)
    && (e.RowOperation? ==> exists r :: r in v.machines.rows && Permits(r, e.operation))
  }

  /** A view that is open, with what of the inventory matters to a run of a few steps. */
  function Showing(operation: nat, statusFirst: U32, requestId: U32, total: U32, rows: seq<Row>, loading: bool, failed: bool): View {
    View(true, Inventory(operation, false, statusFirst, false, requestId, 1, total, rows, loading, failed))
  }

  /** Opening the view and loading the first page. */
  lemma Opened(rows: seq<Row>, page: Page)
    requires page.requestId == 1 && page.generation == 1 && page.status == 0 && page.rows == rows
    ensures Next(Next(Initial(), Open), Loaded(Some(page))) == Showing(REFRESH, 0, 1, page.total, rows, false, false)
    ensures Next(Initial(), Open).machines == Initial().machines.(operation := REFRESH, requestId := 1, loading := true)
    ensures Next(Initial(), Open).open
  {
  }

  lemma SweptFirst(first: Row, first': Row, second: Row, page: Page)
    requires first.index == first'.index == 0 && second.index == 1
    requires page == Page(2, 1, 3, 0, 0, [first'])
    ensures var v := Showing(STATUS, 0, 2, 3, [first, second], true, false);
            Next(v, Loaded(Some(page))) == Showing(STATUS, 1, 3, 3, [first', second], true, false)
  {
    MergedAt([first, second], [first'], 0);
    MergedAt([first, second], [first'], 1);
    assert Merged([first, second], [first']) == [first', second];
  }

  /** Two of three rows are held, an invalidation starts a sweep, and the sweep reads the first. */
  lemma SweepHalfway(first: Row, first': Row, second: Row) returns (views: seq<View>, events: seq<Event>)
    requires first.index == first'.index == 0 && second.index == 1
    ensures Run(views, events) && |events| == 4 && HostKeeps(views, events, 4)
    ensures events[2].Invalidated? && Heard(views[2])
    ensures views[4] == Showing(STATUS, 1, 3, 3, [first', second], true, false)
    ensures !Brought(views, events, 2, 4, second)
  {
    var held, swept := Page(1, 1, 3, 0, 0, [first, second]), Page(2, 1, 3, 0, 0, [first']);
    Opened([first, second], held);
    SweptFirst(first, first', second, swept);
    var v2 := Showing(REFRESH, 0, 1, 3, [first, second], false, false);
    var v3 := Showing(STATUS, 0, 2, 3, [first, second], true, false);
    var v4 := Showing(STATUS, 1, 3, 3, [first', second], true, false);
    assert Next(v2, Invalidated) == v3;
    hide Next;
    views := [Initial(), Next(Initial(), Open), v2, v3, v4];
    events := [Open, Loaded(Some(held)), Invalidated, Loaded(Some(swept))];
  }

  /** Such a run, from the start: in the middle of a sweep more rows are asked for, or a row is acted
      on that permits it. The inventory settles on a second row that no reply has brought since the
      invalidation. */
  lemma SweepDropped(first: Row, first': Row, second: Row, third: Row, e: Event)
    returns (views: seq<View>, events: seq<Event>)
    requires first.index == first'.index == 0 && second.index == 1 && third.index == 2
    requires e.More? || (e.RowOperation? && 2 <= e.operation < FORGET && Permits(first', e.operation))
    ensures Run(views, events) && |events| == 6 && HostKeeps(views, events, 6)
    ensures events[2].Invalidated? && Heard(views[2]) && events[4] == e && Offered(views[4], e) && Drops(views[4], e)
    ensures views[6].open && Settled(views[6]) && |views[6].machines.rows| >= 2 && views[6].machines.rows[1] == second
    ensures !Brought(views, events, 2, 6, second)
  {
    views, events := SweepHalfway(first, first', second);
    var v := views[4];
    assert v.machines.rows[0] == first' && v.machines.rows[1] == second;
    var p := Page(4, 1, 3, 2, 0, if e.More? then [third] else []);
    var a, b := DropLosesInvalidation(views, events, 2, e, p, 1);
    assert (views + [a, b])[4] == v && (views + [a, b])[2] == views[2];
    views, events := views + [a, b], events + [e, Loaded(Some(p))];
  }

  /** A reply to a request sent before the invalidation does not make up for it: it arrives, the held
      invalidation starts a sweep, and asking for more rows drops the sweep unanswered. The
      inventory settles on rows that no request since the invalidation has brought. */
  lemma HeldSweepDropped(first: Row, second: Row, third: Row) returns (views: seq<View>, events: seq<Event>)
    requires first.index == 0 && second.index == 1 && third.index == 2
    ensures Run(views, events) && |events| == 5 && HostKeeps(views, events, 5)
    ensures events[1].Invalidated? && Heard(views[1]) && events[3].More? && Offered(views[3], More) && Drops(views[3], More)
    ensures first in Carries(views[2], events[2]) && !Issued(views, 1, 2)
    ensures views[5].open && Settled(views[5]) && |views[5].machines.rows| >= 2 && views[5].machines.rows[0] == first
    ensures !Brought(views, events, 1, 5, first)
  {
    var held, more := Page(1, 1, 3, 0, 0, [first, second]), Page(3, 1, 3, 2, 0, [third]);
    Opened([first, second], held);
    var v1 := Next(Initial(), Open);
    var v2 := v1.(machines := v1.machines.(statusDirty := true));
    var v3 := Showing(STATUS, 0, 2, 3, [first, second], true, false);
    assert Next(v1, Invalidated) == v2 && Next(v2, Loaded(Some(held))) == v3;
    views, events := [Initial(), v1, v2, v3], [Open, Invalidated, Loaded(Some(held))];
    assert first in held.rows && v3.machines.rows[0] == first;
    var a, b := DropLosesInvalidation(views, events, 1, More, more, 0);
    var views', events' := views + [a, b], events + [More, Loaded(Some(more))];
    assert views'[1] == v1 && views'[2] == v2 && views'[3] == v3 && events'[2] == Loaded(Some(held));
    views, events := views', events';
  }

  /** An invalidation that comes after a failure is not held, and asking for more rows, unlike a
      refresh, settles the inventory without any read of the held row being issued. */
  lemma FailedInvalidationForgotten(row: Row, second: Row) returns (views: seq<View>, events: seq<Event>)
    requires row.index == 0 && second.index == 1
    ensures Run(views, events) && |events| == 7 && HostKeeps(views, events, 7)
    ensures events[4].Invalidated? && views[4].open && !Heard(views[4])
    ensures events[5].More? && Offered(views[5], More)
    ensures forall t | 4 <= t < 7 :: !Rereads(views[t], views[t + 1])
    ensures views[7].open && Settled(views[7]) && |views[7].machines.rows| >= 1 && views[7].machines.rows[0] == row
    ensures !Brought(views, events, 4, 7, row)
  {
    var held, more := Page(1, 1, 2, 0, 0, [row]), Page(3, 1, 2, 1, 0, [second]);
    Opened([row], held);
    var v2 := Showing(REFRESH, 0, 1, 2, [row], false, false);
    var v3 := Showing(REFRESH, 0, 2, 2, [row], true, false);
    var v4 := Showing(REFRESH, 0, 2, 2, [row], false, true);
    assert Next(v2, Refresh) == v3 && Next(v3, LoadFailed) == v4 && Next(v4, Invalidated) == v4;
    views := [Initial(), Next(Initial(), Open), v2, v3, v4, v4];
    events := [Open, Loaded(Some(held)), Refresh, LoadFailed, Invalidated];
    var a, b := DropLosesInvalidation(views, events, 4, More, more, 0);
    var views', events' := views + [a, b], events + [More, Loaded(Some(more))];
    assert views'[4] == v4 && views'[5] == v4 && views'[6] == a && views'[7] == b;
    views, events := views', events';
  }

  // ---------------------------------------------------------------- loading the whole inventory

  /** What a successful reply leaves, by what was asked for: more rows are put behind the held ones,
      a refresh and a forgotten machine give the rows anew, and any other reply replaces held rows
      by their index and no others. */
  lemma ReplyRows(v: View, p: Page)
    requires v.open && Positioned(v.machines) && Positional(v, Loaded(Some(p)))
    requires p.requestId == v.machines.requestId && p.status == 0 && ValidStatusPage(v.machines, p)
    ensures var m, rows, o := v.machines, Next(v, Loaded(Some(p))).machines.rows, v.machines.operation;
            && Next(v, Loaded(Some(p))).machines.total == p.total && !Next(v, Loaded(Some(p))).machines.failed
            && (o == 1 ==> rows == m.rows + p.rows)
            && (o == 0 || o == 5 ==> rows == p.rows)
            && (o != 0 && o != 1 && o != 5 ==>
                  && |rows| == |m.rows|
                  && forall i | 0 <= i < |m.rows| ::
                       && (rows[i] in p.rows || rows[i] == m.rows[i]) && rows[i].index == i
                       && ((exists r :: r in p.rows && r.index == i) ==> rows[i] in p.rows))
  {
    hide IndexedFrom;
    var m := v.machines;
    if m.operation == MORE {
      AppendedBehind(m.rows, p.rows);
    } else if m.operation != REFRESH && m.operation != FORGET {
      var rows := Merged(m.rows, p.rows);
      assert rows + [] == rows;
      forall i | 0 <= i < |m.rows|
        ensures && (rows[i] in p.rows || rows[i] == m.rows[i]) && rows[i].index == i
                && ((exists r :: r in p.rows && r.index == i) ==> rows[i] in p.rows)
      {
        HeldAt(m.rows, i);
        MergedAt(m.rows, p.rows, i);
        LastForIndex(p.rows, m.rows[i]);
        LastForFound(p.rows, m.rows[i]);
      }
    }
  }

  /** A reply that reports a failure and brings no rows leaves the inventory as it was, marked as
      failed; one that brings rows all the same has them taken up. */
  lemma FailureKeepsRows(v: View, p: Page)
    requires v.open && p.requestId == v.machines.requestId && p.status != 0
    ensures var m, m' := v.machines, Next(v, Loaded(Some(p))).machines;
            && m'.failed && !m'.loading
            && (p.rows == [] ==> m' == m.(loading := false, failed := true))
            && (p.rows != [] ==> m'.generation == p.generation && m'.total == p.total)
            && (p.rows != [] && (m.operation == 0 || m.operation == 5) ==> m'.rows == p.rows)
  {
  }

  /** A row can be acted on only in an open view, and neither after a failure nor behind a load that
      is not a sweep. */
  lemma ActionsExactly(v: View, operation: nat)
    ensures Enabled(v, RowOperation(operation)) <==>
              && v.open && !v.machines.failed && (v.machines.loading ==> v.machines.operation == 8)
              && operation in [2, 3, 4, 5, 7]
  {
  }

  /** A closed view takes nothing in until it is opened again. */
  lemma ClosedIgnores(v: View, e: Event)
    requires !v.open && (e.Loaded? || e.LoadFailed? || e.Invalidated? || e.Close?)
    ensures Next(v, e) == v
  {
  }

  lemma HeldAt(rows: seq<Row>, i: nat)
    requires IndexedFrom(rows, 0) && i < |rows|
    ensures rows[i].index == i
  {
  }

  lemma {:induction false} LastForFound(rows: seq<Row>, held: Row)
    ensures (exists r :: r in rows && r.index == held.index) ==> LastFor(rows, held) in rows
  {
    if rows != [] {
      LastForFound(rows[..|rows| - 1], held);
      assert forall r :: r in rows <==> r in rows[..|rows| - 1] || r == rows[|rows| - 1];
    }
  }

  /** Rows with indices behind the held ones replace none of them. */
  lemma AppendedBehind(held: seq<Row>, rows: seq<Row>)
    requires IndexedFrom(held, 0) && IndexedFrom(rows, |held|)
    ensures Merged(held, rows) == held
  {
    var merged := Merged(held, rows);
    forall i | 0 <= i < |held|
      ensures merged[i] == held[i]
    {
      MergedAt(held, rows, i);
      LastForAt(rows, held[i], |held|);
    }
  }

  /** The host's reply to a request for rows from `first` on: the next `n` of its list. */
  function Cut(all: seq<Row>, requestId: U32, generation: U32, first: nat, n: nat): Page
    requires first + n <= |all| <= U32_MAX
  {
    Page(requestId, generation, |all|, first, 0, all[first..first + n])
  }

  /** Asking for more and getting pages of these sizes, one after another. */
  ghost function Paged(v: View, all: seq<Row>, sizes: seq<nat>): View
    requires v.open && |all| <= U32_MAX
    decreases |sizes|
  {
    if sizes == [] || |v.machines.rows| + sizes[0] > |all| then v
    else
      var a := Next(v, More);
      var b := Next(a, Loaded(Some(Cut(all, a.machines.requestId, a.machines.generation, |v.machines.rows|, sizes[0]))));
      if b.open then Paged(b, all, sizes[1..]) else b
  }

  function Total(sizes: seq<nat>): nat {
    if sizes == [] then 0 else sizes[0] + Total(sizes[1..])
  }

  /** A settled view that shows the first `n` rows of the host's list. */
  ghost predicate Shows(v: View, all: seq<Row>, n: nat) {
    && v.open && Settled(v) && !v.machines.statusDirty
    && n <= |all| <= U32_MAX && v.machines.rows == all[..n] && v.machines.total == |all|
  }

  lemma MoreShows(v: View, all: seq<Row>, n: nat, k: nat)
    requires Shows(v, all, n) && IndexedFrom(all, 0) && n + k <= |all|
    ensures var a := Next(v, More);
            Shows(Next(a, Loaded(Some(Cut(all, a.machines.requestId, a.machines.generation, n, k)))), all, n + k)
  {
    var a := Next(v, More);
    var p := Cut(all, a.machines.requestId, a.machines.generation, n, k);
    ReplyRows(a, p);
    assert all[..n] + all[n..n + k] == all[..n + k];
  }

  /** Paging loads the host's list, row for row: after pages of any sizes the view shows as many of
      its rows as came, and it offers more exactly while rows are missing. */
  lemma {:induction false} PagingLoadsAll(v: View, all: seq<Row>, sizes: seq<nat>)
    requires Shows(v, all, |v.machines.rows|) && IndexedFrom(all, 0) && |v.machines.rows| + Total(sizes) <= |all|
    ensures Shows(Paged(v, all, sizes), all, |v.machines.rows| + Total(sizes))
    ensures Offered(Paged(v, all, sizes), More) <==> |v.machines.rows| + Total(sizes) < |all|
    ensures |v.machines.rows| + Total(sizes) == |all| ==> Paged(v, all, sizes).machines.rows == all
    decreases |sizes|
  {
    hide Next, IndexedFrom;
    if sizes != [] {
      MoreShows(v, all, |v.machines.rows|, sizes[0]);
      var a := Next(v, More);
      var b := Next(a, Loaded(Some(Cut(all, a.machines.requestId, a.machines.generation, |v.machines.rows|, sizes[0]))));
      PagingLoadsAll(b, all, sizes[1..]);
    } else {
      assert all[..|all|] == all;
    }
  }

  /** Opening the view, or refreshing it, starts over with the first page. */
  lemma FirstPageShows(v: View, e: Event, all: seq<Row>, generation: U32, n: nat)
    requires e.Open? || (e.Refresh? && v.open)
    requires IndexedFrom(all, 0) && n <= |all| <= U32_MAX
    ensures var a := Next(v, e);
            Shows(Next(a, Loaded(Some(Cut(all, a.machines.requestId, generation, 0, n)))), all, n)
  {
    assert all[0..n] == all[..n];
  }
}
