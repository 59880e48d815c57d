/** Cockpit command delivery: an at-most-once queue with 64-bit ids held in two 32-bit halves. */
module TabCommands {
  import opened Prelude

  const TWO32 := 0x1_0000_0000
  const TWO64 := 0x1_0000_0000_0000_0000
  const CAPACITY := 16

  datatype WireU64 = WireU64(hi: U32, lo: U32) {
    function Value(): (v: int)
      ensures 0 <= v < TWO64
    {
      hi as int * TWO32 + lo
    }
  }

  // ---------------------------------------------------------------- wire words

  function ReadU64(b: Bytes, at: nat): WireU64
    requires at + 8 <= |b|
  {
    WireU64(ReadU32(b, at + 4), ReadU32(b, at))
  }

  /** The four bytes at `at` become the word, least significant first; no other byte changes. */
  method WriteU32(a: array<Byte>, at: nat, value: U32)
    requires at + 4 <= a.Length
    modifies a
    ensures a[..] == old(a[..at]) + LittleEndian(value) + old(a[at + 4..])
  {
    a[at] := value % 0x100;
    a[at + 1] := value / 0x100 % 0x100;
    a[at + 2] := value / 0x1_0000 % 0x100;
    a[at + 3] := value / 0x100_0000 % 0x100;
    assert a[at..at + 4] == LittleEndian(value);
    assert a[..] == a[..at] + a[at..at + 4] + a[at + 4..];
  }

  // ---------------------------------------------------------------- packets

  function PacketBytes(id: WireU64, target: Bytes, kind: Byte): Bytes {
    [1, kind] + LittleEndian(id.lo) + LittleEndian(id.hi) + target
  }

  method Packet(id: WireU64, target: Bytes, kind: Byte) returns (bytes: array<Byte>)
    ensures bytes[..] == PacketBytes(id, target, kind)
  {
    hide LittleEndian;
    bytes := new Byte[10 + |target|](_ => 0);
    bytes[0] := 1;
    bytes[1] := kind;
    WriteU32(bytes, 2, id.lo);
    ghost var head := [1, kind] + LittleEndian(id.lo);
    assert bytes[..6] == head;
    WriteU32(bytes, 6, id.hi);
    head := head + LittleEndian(id.hi);
    assert bytes[..10] == head;
    for i := 0 to |target|
      invariant bytes[..10] == head
      invariant forall k | 0 <= k < i :: bytes[10 + k] == target[k]
    {
      bytes[10 + i] := target[i];
    }
    assert bytes[10..] == target;
    assert bytes[..] == bytes[..10] + bytes[10..];
  }

  /** The id a packet carries. */
  function PacketId(bytes: Bytes): WireU64
    requires |bytes| >= 10
  {
    ReadU64(bytes, 2)
  }

  lemma PacketCarriesId(id: WireU64, target: Bytes, kind: Byte)
    ensures |PacketBytes(id, target, kind)| >= 10 && PacketId(PacketBytes(id, target, kind)) == id
    ensures PacketBytes(id, target, kind)[..2] == [1, kind] && PacketBytes(id, target, kind)[10..] == target
  {
    var p := PacketBytes(id, target, kind);
    assert p[2..6] == LittleEndian(id.lo) && p[6..10] == LittleEndian(id.hi);
    WordRoundTrip(p, 2, id.lo);
    WordRoundTrip(p, 6, id.hi);
  }

  // ---------------------------------------------------------------- the queue

  datatype Pending = Pending(id: WireU64, bytes: Bytes)

  datatype Outcome = Quiet | Waiting | Applied | Rejected | Full | Unknown | Exhausted | AcceptedPending

  datatype State = State(nextId: WireU64, queue: seq<Pending>, lastId: WireU64, outcome: Outcome)

  /** The new state, and the request to send now, empty for none. */
  datatype Decision = Decision(state: State, request: Bytes)

  const ZERO := WireU64(0, 0)

  function Initial(): State {
    State(WireU64(0, 1), [], ZERO, Quiet)
  }

  /** One more, wrapping past the last id to zero, which is never allocated. */
  function IncrementId(id: WireU64): (r: WireU64)
    ensures r.Value() == (id.Value() + 1) % TWO64
  {
    if id.lo < U32_MAX then WireU64(id.hi, id.lo + 1)
    else if id.hi < U32_MAX then WireU64(id.hi + 1, 0)
    else ZERO
  }

  function EnqueueSelection(s: State, target: Bytes, kind: Byte): Decision {
    if |s.queue| >= CAPACITY then Decision(s.(outcome := Full), [])
    else if s.nextId == ZERO then Decision(s.(outcome := Exhausted), [])
    else
      var bytes := PacketBytes(s.nextId, target, kind);
      Decision(s.(nextId := IncrementId(s.nextId), queue := s.queue + [Pending(s.nextId, bytes)], outcome := Waiting),
               if s.queue == [] then bytes else [])
  }

  function EnqueueTab(s: State, target: Bytes): Decision {
    if |target| != 22 then Decision(s.(outcome := Rejected), []) else EnqueueSelection(s, target, 1)
  }

  function EnqueueCatalog(s: State, target: Bytes): Decision {
    if |target| < 38 || |target| > 298 || target[0] != 2 then Decision(s.(outcome := Rejected), [])
    else EnqueueSelection(s, target, 2)
  }

  function EnqueueOperation(s: State, operation: Bytes): Decision {
    if |operation| != 12 || operation[0] != 1 then Decision(s.(outcome := Rejected), [])
    else EnqueueSelection(s, operation, 3)
  }

  predicate ValidReceipt(b: Bytes) {
    |b| == 27 && b[0] == 1 &&
    ((b[1] == 1 && b[2] == 0) || (b[1] == 3 && b[2] == 0) || (b[1] == 2 && 1 <= b[2] <= 3))
  }

  function ReceiveReceipt(s: State, b: Bytes): Decision {
    if s.queue == [] then Decision(s, [])
    else if !ValidReceipt(b) || ReadU64(b, 3) != s.queue[0].id then UnknownCommand(s)
    else
      var queue := s.queue[1..];
      var outcome := if b[1] == 1 then Applied else if b[1] == 3 then AcceptedPending else Rejected;
      Decision(s.(queue := queue, lastId := ReadU64(b, 3), outcome := outcome),
               if queue == [] then [] else queue[0].bytes)
  }

  function UnknownCommand(s: State): Decision {
    Decision(s.(queue := [], lastId := if s.queue == [] then s.lastId else s.queue[0].id, outcome := Unknown), [])
  }

  // ---------------------------------------------------------------- runs

  datatype Event =
    | SelectTab(target: Bytes)
    | SelectCatalog(target: Bytes)
    | Operate(operation: Bytes)
    | Receipt(body: Bytes)
    | DeliveryFailed

  function Handle(s: State, e: Event): Decision {
    match e
    case SelectTab(t) => EnqueueTab(s, t)
    case SelectCatalog(t) => EnqueueCatalog(s, t)
    case Operate(o) => EnqueueOperation(s, o)
    case Receipt(b) => ReceiveReceipt(s, b)
    case DeliveryFailed => UnknownCommand(s)
  }

  /** The cockpit's command state with every request it ever sent. */
  datatype System = System(state: State, sent: seq<Bytes>)

  function Next(y: System, e: Event): System {
    var d := Handle(y.state, e);
    System(d.state, y.sent + if d.request == [] then [] else [d.request])
  }

  function RunOf(events: seq<Event>): System {
    if events == [] then System(Initial(), [])
    else Next(RunOf(events[..|events| - 1]), events[|events| - 1])
  }

  // ---------------------------------------------------------------- what every run keeps

  /** The next id that may be allocated, one past the last id when there is none left. */
  function NextValue(s: State): int {
    if s.nextId == ZERO then TWO64 else s.nextId.Value()
  }

  /** Every id ever sent is below this, and the next one sent is exactly this or later. */
  function Floor(s: State): int {
    if s.queue == [] then NextValue(s) else s.queue[0].id.Value() + 1
  }

  /** At most sixteen commands wait, with consecutive non-zero ids that end just below the next
      id, each packet carrying its own id. */
  ghost predicate QueueValid(s: State) {
    && |s.queue| <= CAPACITY
    && (forall i | 0 <= i < |s.queue| ::
          && s.queue[i].id.Value() == NextValue(s) - |s.queue| + i
          && s.queue[i].id != ZERO
          && |s.queue[i].bytes| >= 10 && PacketId(s.queue[i].bytes) == s.queue[i].id)
  }

  ghost predicate Increasing(sent: seq<Bytes>) {
    && (forall i | 0 <= i < |sent| :: |sent[i]| >= 10)
    && (forall i, j | 0 <= i < j < |sent| :: PacketId(sent[i]).Value() < PacketId(sent[j]).Value())
  }

  ghost predicate SystemValid(y: System) {
    && QueueValid(y.state)
    && Increasing(y.sent)
    && (forall i | 0 <= i < |y.sent| :: PacketId(y.sent[i]).Value() < Floor(y.state))
    && (y.state.queue != [] ==> y.sent != [] && y.sent[|y.sent| - 1] == y.state.queue[0].bytes)
  }

  /** The queue stays valid, whatever is sent carries exactly the floor and becomes the head,
      and the floor never falls. */
  ghost predicate Orderly(s: State, d: Decision) {
    && QueueValid(d.state)
    && NextValue(s) <= NextValue(d.state)
    && (d.request == [] ==>
          && Floor(s) <= Floor(d.state)
          && (d.state.queue == [] || (s.queue != [] && d.state.queue[0] == s.queue[0])))
    && (d.request != [] ==>
          && |d.request| >= 10 && PacketId(d.request).Value() == Floor(s)
          && Floor(d.state) == Floor(s) + 1
          && d.state.queue != [] && d.state.queue[0].bytes == d.request)
  }

  lemma HandleOrderly(s: State, e: Event)
    requires QueueValid(s)
    ensures Orderly(s, Handle(s, e))
  {
    hide PacketId, EnqueueSelection, ReceiveReceipt;
    match e {
      case SelectTab(t) => EnqueueOrderly(s, t, 1);
      case SelectCatalog(t) => EnqueueOrderly(s, t, 2);
      case Operate(o) => EnqueueOrderly(s, o, 3);
      case Receipt(b) => ReceiptOrderly(s, b);
      case DeliveryFailed =>
    }
  }

  lemma EnqueueOrderly(s: State, target: Bytes, kind: Byte)
    requires QueueValid(s)
    ensures Orderly(s, EnqueueSelection(s, target, kind))
  {
    hide PacketBytes, PacketId;
    PacketCarriesId(s.nextId, target, kind);
  }

  lemma ReceiptOrderly(s: State, b: Bytes)
    requires QueueValid(s)
    ensures Orderly(s, ReceiveReceipt(s, b))
  {
    hide PacketId, ReadU64;
  }

  lemma NextKeeps(y: System, e: Event)
    requires SystemValid(y)
    ensures SystemValid(Next(y, e))
    ensures Floor(y.state) <= Floor(Next(y, e).state)
    ensures y.sent <= Next(y, e).sent
    ensures forall i | |y.sent| <= i < |Next(y, e).sent| :: PacketId(Next(y, e).sent[i]).Value() >= Floor(y.state)
  {
    hide PacketId, Handle;
    HandleOrderly(y.state, e);
  }

  /** Over every run, the ids of the commands actually sent strictly increase: none is ever sent
      twice. The queue holds at most sixteen consecutive ids that end just below the next one. */
  lemma {:induction false} RunIsValid(events: seq<Event>)
    ensures SystemValid(RunOf(events))
  {
    if events != [] {
      RunIsValid(events[..|events| - 1]);
      NextKeeps(RunOf(events[..|events| - 1]), events[|events| - 1]);
    }
  }

  /** Whatever is sent after a moment carries an id that was not yet due at that moment. */
  lemma {:induction false} SentLater(before: seq<Event>, more: seq<Event>)
    ensures var y, z := RunOf(before), RunOf(before + more);
            && y.sent <= z.sent && Increasing(z.sent)
            && Floor(y.state) <= Floor(z.state)
            && forall i | |y.sent| <= i < |z.sent| :: PacketId(z.sent[i]).Value() >= Floor(y.state)
  {
    hide PacketId, Next, Floor;
    RunIsValid(before + more);
    if more == [] {
      assert before + more == before;
    } else {
      var n := |more| - 1;
      SentLater(before, more[..n]);
      assert (before + more)[..|before + more| - 1] == before + more[..n];
      assert (before + more)[|before + more| - 1] == more[n];
      RunIsValid(before + more[..n]);
      NextKeeps(RunOf(before + more[..n]), more[n]);
    }
  }

  /** A command waiting when a delivery failure, or a bad or mismatched receipt, empties the
      queue is never sent afterwards, and the one in doubt is never sent again. */
  lemma CancelledNeverSent(before: seq<Event>, e: Event, more: seq<Event>, waiting: Pending)
    requires waiting in RunOf(before).state.queue
    requires RunOf(before + [e]).state == UnknownCommand(RunOf(before).state).state
    ensures var y, z := RunOf(before + [e]), RunOf(before + [e] + more);
            forall i | |y.sent| <= i < |z.sent| :: |z.sent[i]| >= 10 && PacketId(z.sent[i]) != waiting.id
  {
    hide PacketId;
    RunIsValid(before);
    RunIsValid(before + [e]);
    SentLater(before + [e], more);
  }

  lemma HandleExhausted(s: State, e: Event)
    requires s.nextId == ZERO
    ensures Handle(s, e).state.nextId == ZERO
    ensures forall p | p in Handle(s, e).state.queue :: p in s.queue
  {
  }

  /** Once the last 64-bit id is spent, no command is ever allocated again. */
  lemma {:induction false} ExhaustedForEver(before: seq<Event>, more: seq<Event>)
    requires RunOf(before).state.nextId == ZERO
    ensures RunOf(before + more).state.nextId == ZERO
    ensures forall p | p in RunOf(before + more).state.queue :: p in RunOf(before).state.queue
  {
    hide Handle;
    if more == [] {
      assert before + more == before;
    } else {
      var n := |more| - 1;
      ExhaustedForEver(before, more[..n]);
      assert (before + more)[..|before + more| - 1] == before + more[..n];
      HandleExhausted(RunOf(before + more[..n]).state, more[n]);
    }
  }

  // ---------------------------------------------------------------- what a receipt means

  /** The receipt the host writes for a command: a tag, a reason, the id, and sixteen bytes that
      the client does not read. */
  function ReceiptBytes(tag: Byte, reason: Byte, id: WireU64, rest: Bytes): Bytes {
    [1, tag, reason] + LittleEndian(id.lo) + LittleEndian(id.hi) + rest
  }

  /** The outcome a receipt reports, if it is one: applied, refused for one of three reasons, or
      accepted with its outcome still to come. */
  function Reported(tag: Byte, reason: Byte): Option<Outcome> {
    match tag
    case 1 => if reason == 0 then Some(Applied) else None
    case 2 => if reason in [1, 2, 3] then Some(Rejected) else None
    case 3 => if reason == 0 then Some(AcceptedPending) else None
    case _ => None
  }

  lemma ReceiptParts(tag: Byte, reason: Byte, id: WireU64, rest: Bytes)
    requires |rest| == 16
    ensures var b := ReceiptBytes(tag, reason, id, rest);
            && |b| == 27 && b[0] == 1 && b[1] == tag && b[2] == reason && ReadU64(b, 3) == id
            && (ValidReceipt(b) <==> Reported(tag, reason).Some?)
  {
    var b := ReceiptBytes(tag, reason, id, rest);
    assert b[3..7] == LittleEndian(id.lo) && b[7..11] == LittleEndian(id.hi);
    WordRoundTrip(b, 3, id.lo);
    WordRoundTrip(b, 7, id.hi);
  }

  /** A receipt for the command in flight takes it off the queue, reports what the receipt says, and
      sends the next command. */
  lemma ReceiptAdvances(s: State, tag: Byte, reason: Byte, rest: Bytes)
    requires s.queue != [] && |rest| == 16 && Reported(tag, reason).Some?
    ensures var d := ReceiveReceipt(s, ReceiptBytes(tag, reason, s.queue[0].id, rest));
            && d.state == State(s.nextId, s.queue[1..], s.queue[0].id, Reported(tag, reason).value)
            && d.request == if |s.queue| > 1 then s.queue[1].bytes else []
  {
    ReceiptParts(tag, reason, s.queue[0].id, rest);
  }

  /** The bytes are a receipt for this command. */
  ghost predicate IsReceiptFor(b: Bytes, id: WireU64) {
    exists tag: Byte, reason: Byte, rest: Bytes ::
      |rest| == 16 && Reported(tag, reason).Some? && b == ReceiptBytes(tag, reason, id, rest)
  }

  lemma ReceiptRead(b: Bytes, id: WireU64)
    ensures ValidReceipt(b) && ReadU64(b, 3) == id <==> IsReceiptFor(b, id)
  {
    if ValidReceipt(b) && ReadU64(b, 3) == id {
      WordBytes(b, 3);
      WordBytes(b, 7);
      assert b == ReceiptBytes(b[1], b[2], id, b[11..]);
    }
    if tag: Byte, reason: Byte, rest: Bytes :|
      |rest| == 16 && Reported(tag, reason).Some? && b == ReceiptBytes(tag, reason, id, rest) {
      ReceiptParts(tag, reason, id, rest);
    }
  }

  /** Bytes that are no such receipt leave the command in doubt and give up those behind it. */
  lemma OtherReceiptGivesUp(s: State, b: Bytes)
    requires s.queue != [] && !IsReceiptFor(b, s.queue[0].id)
    ensures ReceiveReceipt(s, b) == Decision(State(s.nextId, [], s.queue[0].id, Unknown), [])
  {
    ReceiptRead(b, s.queue[0].id);
  }

  /** So does a delivery that fails; with nothing in flight it is only reported. */
  lemma FailureGivesUp(s: State)
    ensures Handle(s, DeliveryFailed) ==
            Decision(State(s.nextId, [], if s.queue == [] then s.lastId else s.queue[0].id, Unknown), [])
    ensures s.queue == [] ==> forall b :: Handle(s, Receipt(b)) == Decision(s, [])
  {
  }

  // ---------------------------------------------------------------- every command is delivered

  datatype Command = Command(kind: Byte, target: Bytes)

  /** The command an action stands for: a tab of 22 bytes, a catalogue entry of 38 to 298 that
      starts with 2, or an operation of 12 that starts with 1. */
  function Wanted(e: Event): Option<Command> {
    match e
    case SelectTab(t) => if |t| == 22 then Some(Command(1, t)) else None
    case SelectCatalog(t) => if 38 <= |t| <= 298 && t[0] == 2 then Some(Command(2, t)) else None
    case Operate(o) => if |o| == 12 && o[0] == 1 then Some(Command(3, o)) else None
    case _ => None
  }

  /** The commands of a run: every action that stands for one, unless sixteen were waiting or all
      ids were spent. */
  function Commands(events: seq<Event>): seq<Command> {
    if events == [] then []
    else
      var n := |events| - 1;
      var before, c := Commands(events[..n]), Wanted(events[n]);
      if c.Some? && |RunOf(events[..n]).state.queue| < 16 && |before| < TWO64 - 1 then before + [c.value] else before
  }

  function IdOf(n: nat): WireU64
    requires n < TWO64
  {
    WireU64(n / TWO32, n % TWO32)
  }

  /** The packet of the n-th command, counted from 1. */
  function PacketOf(cs: seq<Command>, n: nat): Bytes
    requires 0 < n <= |cs| && n < TWO64
  {
    PacketBytes(IdOf(n), cs[n - 1].target, cs[n - 1].kind)
  }

  /** The host answers every command it is sent with a receipt for it. */
  ghost predicate Answered(events: seq<Event>) {
    forall i | 0 <= i < |events| :: AnsweredAt(RunOf(events[..i]).state, events[i])
  }

  ghost predicate AnsweredAt(s: State, e: Event) {
    s.queue != [] && (e.Receipt? || e.DeliveryFailed?) ==> e.Receipt? && IsReceiptFor(e.body, s.queue[0].id)
  }

  /** Of the commands, the first have been sent, the last of these may still be in flight at the
      head of the queue, and the others wait behind it. */
  ghost predicate Delivered(y: System, cs: seq<Command>) {
    var waiting := |y.state.queue|;
    && waiting <= |cs| < TWO64
    && y.state.nextId == (if |cs| + 1 < TWO64 then IdOf(|cs| + 1) else ZERO)
    && (forall i | 0 <= i < waiting ::
          y.state.queue[i] == Pending(IdOf(|cs| - waiting + i + 1), PacketOf(cs, |cs| - waiting + i + 1)))
    && |y.sent| == |cs| - SatSub(waiting, 1)
    && (forall i | 0 <= i < |y.sent| :: y.sent[i] == PacketOf(cs, i + 1))
  }

  lemma IdValue(n: nat)
    requires n < TWO64
    ensures IdOf(n).Value() == n && (IdOf(n) == ZERO <==> n == 0)
    ensures n > 0 ==> IncrementId(IdOf(n)) == if n + 1 < TWO64 then IdOf(n + 1) else ZERO
  {
    var v := IncrementId(IdOf(n));
    assert IdOf(n).Value() == n;
    assert v.lo == v.Value() % TWO32 && v.hi == v.Value() / TWO32;
  }

  /** An action that stands for a command, while fewer than sixteen wait and ids are left, queues
      exactly that command under the next id, and sends it if nothing else is in flight. */
  lemma EnqueueMeans(s: State, e: Event)
    requires !e.Receipt? && !e.DeliveryFailed?
    ensures var d, c := Handle(s, e), Wanted(e);
            if c.None? then d == Decision(s.(outcome := Rejected), [])
            else if |s.queue| >= 16 then d == Decision(s.(outcome := Full), [])
            else if s.nextId == ZERO then d == Decision(s.(outcome := Exhausted), [])
            else
              var bytes := PacketBytes(s.nextId, c.value.target, c.value.kind);
              d == Decision(State(IncrementId(s.nextId), s.queue + [Pending(s.nextId, bytes)], s.lastId, Waiting),
                            if s.queue == [] then bytes else [])
  {
  }

  lemma PacketsKept(cs: seq<Command>, c: Command)
    requires |cs| < TWO64 - 1
    ensures forall n: nat | 0 < n <= |cs| :: PacketOf(cs + [c], n) == PacketOf(cs, n)
    ensures PacketOf(cs + [c], |cs| + 1) == PacketBytes(IdOf(|cs| + 1), c.target, c.kind)
    ensures PacketOf(cs + [c], |cs| + 1) != []
  {
    hide PacketBytes, IdOf;
    PacketCarriesId(IdOf(|cs| + 1), c.target, c.kind);
  }

  lemma DeliveredMore(y: System, cs: seq<Command>, c: Command, e: Event)
    requires Delivered(y, cs) && |cs| < TWO64 - 1 && Wanted(e) == Some(c) && |y.state.queue| < 16
    ensures Delivered(Next(y, e), cs + [c])
  {
    hide PacketBytes, Handle;
    var cs' := cs + [c];
    EnqueueMeans(y.state, e);
    IdValue(|cs| + 1);
    PacketsKept(cs, c);
    hide IncrementId, IdOf, PacketOf;
  }

  lemma DeliveredSame(y: System, cs: seq<Command>, e: Event)
    requires Delivered(y, cs) && !e.Receipt? && !e.DeliveryFailed?
    requires Wanted(e).None? || |y.state.queue| >= 16 || |cs| >= TWO64 - 1
    ensures Delivered(Next(y, e), cs)
  {
    hide PacketBytes, Handle;
    EnqueueMeans(y.state, e);
  }

  lemma DeliveredOn(y: System, cs: seq<Command>, e: Event)
    requires Delivered(y, cs) && (e.Receipt? || e.DeliveryFailed?) && AnsweredAt(y.state, e)
    ensures Delivered(Next(y, e), cs)
  {
    hide PacketBytes, LittleEndian, IdOf;
    if y.state.queue != [] {
      var tag: Byte, reason: Byte, rest: Bytes :|
        |rest| == 16 && Reported(tag, reason).Some? && e.body == ReceiptBytes(tag, reason, y.state.queue[0].id, rest);
      ReceiptAdvances(y.state, tag, reason, rest);
      hide ReceiveReceipt, Reported, ReceiptBytes;
      if |y.state.queue| > 1 {
        var n := |cs| - |y.state.queue| + 2;
        assert y.state.queue[1].bytes == PacketOf(cs, n);
        PacketCarriesId(IdOf(n), cs[n - 1].target, cs[n - 1].kind);
      }
    }
  }

  /** With a host that answers, what is sent over a run is exactly its commands, one after another,
      each once, under the ids 1, 2, 3 and so on; all of them once nothing waits. */
  lemma EveryCommandSent(events: seq<Event>)
    requires Answered(events)
    ensures Delivered(RunOf(events), Commands(events))
    ensures RunOf(events).state.queue == [] ==>
              && |RunOf(events).sent| == |Commands(events)|
              && forall i | 0 <= i < |Commands(events)| :: RunOf(events).sent[i] == PacketOf(Commands(events), i + 1)
  {
    hide RunOf, Commands, PacketOf;
    RunDelivers(events);
  }

  lemma {:induction false} RunDelivers(events: seq<Event>)
    requires Answered(events)
    ensures Delivered(RunOf(events), Commands(events))
  {
    hide Next, AnsweredAt, Delivered, Answered;
    if events == [] {
      DeliveredNothing();
    } else {
      var n := |events| - 1;
      var before := events[..n];
      AnsweredBefore(events);
      RunDelivers(before);
      var y, cs, e := RunOf(before), Commands(before), events[n];
      if e.Receipt? || e.DeliveryFailed? {
        DeliveredOn(y, cs, e);
      } else if Wanted(e).Some? && |y.state.queue| < 16 && |cs| < TWO64 - 1 {
        DeliveredMore(y, cs, Wanted(e).value, e);
      } else {
        DeliveredSame(y, cs, e);
      }
    }
  }

  lemma AnsweredBefore(events: seq<Event>)
    requires Answered(events) && events != []
    ensures var n := |events| - 1; Answered(events[..n]) && AnsweredAt(RunOf(events[..n]).state, events[n])
  {
    hide RunOf, AnsweredAt;
    var before := events[..|events| - 1];
    assert forall i | 0 <= i < |before| :: before[..i] == events[..i];
  }

  lemma DeliveredNothing()
    ensures Delivered(System(Initial(), []), [])
  {
  }
}
