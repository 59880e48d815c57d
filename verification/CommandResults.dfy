/** Eventual command outcomes: the host holds on to a result while no read has acknowledged it. */
module CommandResults {
  import opened Prelude
  import opened TabCommands

  // ---------------------------------------------------------------- the client

  /** A decoded result; the fields not named here stay in `body`. */
  datatype CommandResult = CommandResult(source: Byte, id: WireU64, operation: Byte, placement: Byte, focus: Byte, body: Bytes)

  /** The reply that says that no result is waiting, and the request that acknowledges none. */
  const NOTHING: Bytes := [1, 0]
  const RECENT := 16

  datatype Results = Results(recent: seq<CommandResult>, acknowledgement: Bytes, loading: bool, refreshPending: bool)

  datatype ResultDecision = ResultDecision(state: Results, request: Bytes)

  function InitialResults(): Results {
    Results([], NOTHING, false, false)
  }

  function RequestResults(s: Results): ResultDecision {
    if s.loading then ResultDecision(s.(refreshPending := true), [])
    else ResultDecision(s.(loading := true, refreshPending := false), s.acknowledgement)
  }

  predicate ValidResult(b: Bytes) {
    && |b| >= 74 && b[0] == 1
    && 1 <= b[1] <= 3 && 1 <= b[2] <= 3 && 1 <= b[3] <= 5 && 1 <= b[4] <= 3
    && b[66] <= 3 && b[67] == 0
    && var length := b[72] as int + b[73] as int * 256;
       length <= 273 && |b| == 74 + length
  }

  function DecodeResult(b: Bytes): Option<CommandResult> {
    if !ValidResult(b) then None
    else
      var id := ReadU64(b, 6);
      if id == ZERO then None else Some(CommandResult(b[1], id, b[2], b[3], b[4], b))
  }

  /** A result as the host writes it: the parts the client names, and those it passes on unread. */
  datatype Written = Written(source: Byte, operation: Byte, placement: Byte, focus: Byte, reason: Byte, id: WireU64,
                             correlation: Bytes, mutation: Byte, session: U32, terminal: Bytes)

  predicate Writable(w: Written) {
    && w.source in [1, 2, 3] && w.operation in [1, 2, 3] && w.placement in [1, 2, 3, 4, 5] && w.focus in [1, 2, 3]
    && w.id != ZERO && |w.correlation| == 52 && w.mutation <= 3 && |w.terminal| <= 273
  }

  function ResultHead(w: Written): Bytes {
    [1, w.source, w.operation, w.placement, w.focus, w.reason] + LittleEndian(w.id.lo) + LittleEndian(w.id.hi)
  }

  function ResultBytes(w: Written): Bytes
    requires Writable(w)
  {
    ResultHead(w) + w.correlation + [w.mutation, 0] + LittleEndian(w.session) +
    [|w.terminal| % 256, |w.terminal| / 256] + w.terminal
  }

  /** Where the parts of a written result lie. */
  lemma ResultLies(w: Written)
    requires Writable(w)
    ensures var b := ResultBytes(w);
            && |b| == 74 + |w.terminal| && b[..14] == ResultHead(w)
            && b[66] == w.mutation && b[67] == 0
            && b[72] == |w.terminal| % 256 && b[73] == |w.terminal| / 256
  {
    hide LittleEndian;
  }

  /** Every result the host can write is decoded to what was written. */
  lemma ResultWritten(w: Written)
    requires Writable(w)
    ensures DecodeResult(ResultBytes(w)) ==
            Some(CommandResult(w.source, w.id, w.operation, w.placement, w.focus, ResultBytes(w)))
  {
    var b, h := ResultBytes(w), ResultHead(w);
    ResultLies(w);
    assert forall i | 0 <= i < 14 :: b[i] == b[..14][i] == h[i];
    hide ResultBytes;
    assert b[6..10] == h[6..10] == LittleEndian(w.id.lo) && b[10..14] == h[10..14] == LittleEndian(w.id.hi);
    WordRoundTrip(b, 6, w.id.lo);
    WordRoundTrip(b, 10, w.id.hi);
  }

  /** And nothing else is decoded. */
  lemma ResultRead(b: Bytes) returns (w: Written)
    requires DecodeResult(b).Some?
    ensures Writable(w) && ResultBytes(w) == b
  {
    hide LittleEndian, ReadU32;
    w := Written(b[1], b[2], b[3], b[4], b[5], ReadU64(b, 6), b[14..66], b[66], ReadU32(b, 68), b[74..]);
    HeadBytes(b, w);
    WordBytes(b, 68);
    assert |w.terminal| % 256 == b[72] && |w.terminal| / 256 == b[73];
    Pieces(b);
    hide ResultHead;
    assert b[66..68] == [w.mutation, 0] && b[72..74] == [|w.terminal| % 256, |w.terminal| / 256];
  }

  lemma HeadBytes(b: Bytes, w: Written)
    requires |b| >= 14 && b[0] == 1 && w.source == b[1] && w.operation == b[2] && w.placement == b[3] && w.focus == b[4]
    requires w.reason == b[5] && w.id == ReadU64(b, 6)
    ensures b[..14] == ResultHead(w)
  {
    WordBytes(b, 6);
    WordBytes(b, 10);
    hide LittleEndian, ReadU32;
    assert b[..14] == b[..6] + b[6..10] + b[10..14];
  }

  lemma Pieces(b: Bytes)
    requires |b| >= 74
    ensures b == b[..14] + b[14..66] + b[66..68] + b[68..72] + b[72..74] + b[74..]
  {
  }

  function AckBytes(source: Byte, id: WireU64): (b: Bytes)
    ensures |b| == 10
  {
    [1, source] + LittleEndian(id.lo) + LittleEndian(id.hi)
  }

  method Acknowledge(r: CommandResult) returns (bytes: array<Byte>)
    ensures bytes[..] == AckBytes(r.source, r.id)
  {
    bytes := new Byte[10](_ => 0);
    bytes[0] := 1;
    bytes[1] := r.source;
    WriteU32(bytes, 2, r.id.lo);
    ghost var head := [1, r.source] + LittleEndian(r.id.lo);
    assert bytes[..6] == head;
    WriteU32(bytes, 6, r.id.hi);
    assert bytes[..] == head + LittleEndian(r.id.hi);
  }

  /** An acknowledgement is the source and the id, as the host reads them. */
  lemma AckParts(s: Byte, i: WireU64)
    ensures AckBytes(s, i)[..2] == [1, s] && ReadU64(AckBytes(s, i), 2) == i
  {
    var a := AckBytes(s, i);
    assert a[2..6] == LittleEndian(i.lo) && a[6..10] == LittleEndian(i.hi);
    WordRoundTrip(a, 2, i.lo);
    WordRoundTrip(a, 6, i.hi);
  }

  /** An acknowledgement names exactly one (source, id). */
  lemma AckInjective(s: Byte, i: WireU64, t: Byte, j: WireU64)
    requires AckBytes(s, i) == AckBytes(t, j)
    ensures s == t && i == j
  {
    AckParts(s, i);
    AckParts(t, j);
    assert AckBytes(s, i)[..2][1] == s && AckBytes(t, j)[..2][1] == t;
  }

  predicate SameKey(a: CommandResult, b: CommandResult) {
    a.source == b.source && a.id == b.id
  }

  predicate Seen(recent: seq<CommandResult>, r: CommandResult) {
    exists p :: p in recent && SameKey(p, r)
  }

  /** The loop that looks for a result's key among the recent ones. */
  method SeenResult(recent: seq<CommandResult>, r: CommandResult) returns (seen: bool)
    ensures seen <==> Seen(recent, r)
  {
    for i := 0 to |recent|
      invariant forall k | 0 <= k < i :: !SameKey(recent[k], r)
    {
      if SameKey(recent[i], r) {
        return true;
      }
    }
    return false;
  }

  function Remembered(recent: seq<CommandResult>, r: CommandResult): seq<CommandResult> {
    if Seen(recent, r) then recent
    else recent[SatSub(|recent|, RECENT - 1)..] + [r]
  }

  function ReceiveResult(s: Results, b: Bytes): ResultDecision {
    if b == NOTHING then
      if s.refreshPending then RequestResults(s.(loading := false))
      else ResultDecision(s.(loading := false), [])
    else
      match DecodeResult(b)
      case None => FailedResults(s)
      case Some(r) =>
        var ack := AckBytes(r.source, r.id);
        ResultDecision(Results(Remembered(s.recent, r), ack, true, false), ack)
  }

  function FailedResults(s: Results): ResultDecision {
    var next := s.(loading := false);
    if s.refreshPending then RequestResults(next) else ResultDecision(next, [])
  }

  // ---------------------------------------------------------------- client, host and the link between them

  /** The one read that may be outstanding. */
  datatype Link = NoRead | Asked(request: Bytes) | Answered(reply: Bytes)

  /** `produced` are all results the host ever had, `dropped` how many it has let go, `served` how
      many there were when it last answered the outstanding read; `asked` are all requests ever
      sent, any of which may still reach the host late. `recorded` are the results the client took
      in, `pending` counts the reads that are outstanding, `wakes` the wakeups and `covered` those of
      them that some read was issued at or after. */
  datatype World = World(
    client: Results,
    link: Link,
    asked: set<Bytes>,
    produced: seq<CommandResult>,
    dropped: nat,
    served: nat,
    recorded: seq<CommandResult>,
    pending: nat,
    wakes: nat,
    covered: nat)

  datatype Happening =
    | Produce(result: CommandResult)
    | Wake
    | Serve
    | ServeLate(request: Bytes)
    | Arrive
    | Garble(reply: Bytes)
    | Fail

  function InitialWorld(): World {
    World(InitialResults().(loading := true), Asked(NOTHING), {NOTHING}, [], 0, 0, [], 1, 0, 0)
  }

  /** A result the host can have: its body decodes to it and its key is new. */
  ghost predicate Acceptable(w: World, r: CommandResult) {
    DecodeResult(r.body) == Some(r) && forall p | p in w.produced :: (p.source, p.id) != (r.source, r.id)
  }

  /** The host lets its head result go exactly when a request acknowledges it. */
  function LetGo(w: World, request: Bytes): nat {
    if w.dropped < |w.produced| && request == AckBytes(w.produced[w.dropped].source, w.produced[w.dropped].id)
    then w.dropped + 1 else w.dropped
  }

  function HostReply(w: World): Bytes {
    if w.dropped < |w.produced| then w.produced[w.dropped].body else NOTHING
  }

  /** The client's decision becomes its state, and its request, if any, the read in flight. */
  function Decide(w: World, d: ResultDecision): World {
    if d.request == [] then w.(client := d.state, link := if d.state.loading then w.link else NoRead)
    else w.(client := d.state, link := Asked(d.request), asked := w.asked + {d.request}, covered := w.wakes,
            pending := w.pending + 1)
  }

  /** One outstanding read is over. */
  function Over(w: World): World {
    w.(pending := SatSub(w.pending, 1))
  }

  ghost predicate Enabled(w: World, h: Happening) {
    match h
    case Produce(r) => Acceptable(w, r)
    case Wake => true
    case Serve => w.link.Asked?
    case ServeLate(request) => request in w.asked
    case Arrive => w.link.Answered?
    case Garble(reply) => !w.link.NoRead? && reply != NOTHING && DecodeResult(reply).None?
    case Fail => !w.link.NoRead?
  }

  function Recorded(w: World, r: CommandResult): seq<CommandResult> {
    if Seen(w.client.recent, r) then w.recorded else w.recorded + [r]
  }

  ghost function After(w: World, h: Happening): World
    requires Enabled(w, h)
  {
    match h
    case Produce(r) => w.(produced := w.produced + [r])
    case Wake =>
      var v := w.(wakes := w.wakes + 1);
      Decide(v, RequestResults(v.client))
    case Serve =>
      var v := w.(dropped := LetGo(w, w.link.request));
      v.(link := Answered(HostReply(v)), served := |v.produced|)
    case ServeLate(request) => w.(dropped := LetGo(w, request))
    case Arrive =>
      var reply := w.link.reply;
      var v := if reply != NOTHING && DecodeResult(reply).Some?
               then w.(recorded := Recorded(w, DecodeResult(reply).value)) else w;
      Decide(Over(v), ReceiveResult(v.client, reply))
    case Garble(reply) => Decide(Over(w), ReceiveResult(w.client, reply))
    case Fail => Decide(Over(w), FailedResults(w.client))
  }

  /** A run: worlds from the initial one on, each reached by what happened in the one before. */
  ghost predicate Run(worlds: seq<World>, happenings: seq<Happening>) {
    && |worlds| == |happenings| + 1
    && worlds[0] == InitialWorld()
    && forall i | 0 <= i < |happenings| ::
         Enabled(worlds[i], happenings[i]) && worlds[i + 1] == After(worlds[i], happenings[i])
  }

  // ---------------------------------------------------------------- what every run keeps

  ghost predicate DistinctKeys(rs: seq<CommandResult>) {
    forall i, j | 0 <= i < j < |rs| :: (rs[i].source, rs[i].id) != (rs[j].source, rs[j].id)
  }

  ghost predicate ProducedValid(rs: seq<CommandResult>) {
    DistinctKeys(rs) && forall i | 0 <= i < |rs| :: DecodeResult(rs[i].body) == Some(rs[i])
  }

  function Ack(r: CommandResult): Bytes {
    AckBytes(r.source, r.id)
  }

  /** Exactly one read is outstanding while loading, none otherwise; a refresh waits only behind
      a read; a wakeup no read has followed yet is exactly a waiting refresh. */
  ghost predicate ReadsValid(w: World) {
    && (w.client.loading <==> !w.link.NoRead?)
    && w.pending == (if w.link.NoRead? then 0 else 1)
    && (w.client.refreshPending ==> w.client.loading)
    && (w.link.Asked? ==> w.link.request == w.client.acknowledgement)
    && (w.wakes == w.covered || w.client.refreshPending)
  }

  /** Every request ever sent acknowledges nothing or something recorded. */
  ghost predicate AskedKnown(asked: set<Bytes>, recorded: seq<CommandResult>) {
    forall q | q in asked :: q == NOTHING || exists k :: 0 <= k < |recorded| && q == Ack(recorded[k])
  }

  lemma AskedGrows(asked: set<Bytes>, recorded: seq<CommandResult>, r: CommandResult)
    requires AskedKnown(asked, recorded)
    ensures AskedKnown(asked + {Ack(r)}, recorded + [r])
  {
    hide AckBytes;
    var recorded' := recorded + [r];
    assert recorded'[|recorded|] == r;
    forall q | q in asked && q != NOTHING
      ensures exists k :: 0 <= k < |recorded'| && q == Ack(recorded'[k])
    {
      var k :| 0 <= k < |recorded| && q == Ack(recorded[k]);
      assert q == Ack(recorded'[k]);
    }
  }

  /** The client has recorded, once each and in order, all the host let go and at most the one
      result it still keeps; what it acknowledges is the last one recorded. */
  ghost predicate RecordValid(w: World) {
    var r := |w.recorded|;
    && ProducedValid(w.produced)
    && w.recorded <= w.produced && w.dropped <= r <= w.dropped + 1 && w.served <= |w.produced|
    && w.client.recent == w.recorded[SatSub(r, RECENT)..]
    && w.client.acknowledgement == (if r == 0 then NOTHING else Ack(w.recorded[r - 1]))
    && AskedKnown(w.asked, w.recorded)
    && (w.link.Answered? ==>
          && r == w.dropped
          && (if w.link.reply == NOTHING then r == w.served
              else r < |w.produced| && w.link.reply == w.produced[r].body))
  }

  /** A request makes the host let go only of a result that is already recorded. */
  lemma LetGoIsRecorded(w: World, request: Bytes)
    requires RecordValid(w) && request in w.asked
    ensures LetGo(w, request) == w.dropped || (LetGo(w, request) == w.dropped + 1 == |w.recorded|)
  {
    if LetGo(w, request) != w.dropped {
      var head := w.produced[w.dropped];
      var k :| 0 <= k < |w.recorded| && request == Ack(w.recorded[k]);
      AckInjective(head.source, head.id, w.recorded[k].source, w.recorded[k].id);
      assert SameKey(w.produced[w.dropped], w.produced[k]);
    }
  }

  /** Served, the current acknowledgement leaves nothing recorded with the host. */
  lemma ServeReleases(w: World)
    requires RecordValid(w) && w.client.acknowledgement in w.asked
    ensures LetGo(w, w.client.acknowledgement) == |w.recorded|
  {
    LetGoIsRecorded(w, w.client.acknowledgement);
  }

  lemma ServeKeeps(w: World)
    requires RecordValid(w) && ReadsValid(w) && w.link.Asked? && w.link.request in w.asked
    ensures RecordValid(After(w, Serve)) && ReadsValid(After(w, Serve))
  {
    hide DecodeResult, AckBytes;
    ServeReleases(w);
    RecordedFits(w);
  }

  lemma ServeLateKeeps(w: World, request: Bytes)
    requires RecordValid(w) && ReadsValid(w) && request in w.asked
    ensures RecordValid(After(w, ServeLate(request))) && ReadsValid(After(w, ServeLate(request)))
  {
    hide DecodeResult, AckBytes;
    LetGoIsRecorded(w, request);
  }

  lemma NotSeenYet(w: World, r: CommandResult)
    requires RecordValid(w) && |w.recorded| < |w.produced| && r == w.produced[|w.recorded|]
    ensures !Seen(w.client.recent, r)
  {
    hide DecodeResult, AckBytes;
    var at := SatSub(|w.recorded|, RECENT);
    forall i | 0 <= i < |w.client.recent|
      ensures !SameKey(w.client.recent[i], r)
    {
      assert w.client.recent[i] == w.recorded[at + i] == w.produced[at + i];
    }
  }

  /** Taking in the head result: it is recorded, remembered and acknowledged at once. */
  ghost function TakenIn(w: World, r: CommandResult): World {
    w.(recorded := w.recorded + [r],
       client := Results(Remembered(w.client.recent, r), Ack(r), true, false),
       link := Asked(Ack(r)), asked := w.asked + {Ack(r)}, covered := w.wakes)
  }

  lemma RecentSlides(recorded: seq<CommandResult>, r: CommandResult)
    requires !Seen(recorded[SatSub(|recorded|, RECENT)..], r)
    ensures Remembered(recorded[SatSub(|recorded|, RECENT)..], r) == (recorded + [r])[SatSub(|recorded| + 1, RECENT)..]
  {
    hide Seen;
  }

  lemma TakenInKeeps(w: World, r: CommandResult)
    requires RecordValid(w) && |w.recorded| == w.dropped < |w.produced| && r == w.produced[w.dropped]
    ensures RecordValid(TakenIn(w, r))
  {
    NotSeenYet(w, r);
    AskedGrows(w.asked, w.recorded, r);
    RecentSlides(w.recorded, r);
    hide DecodeResult, AckBytes, Seen, ProducedValid, AskedKnown, Remembered;
    assert w.recorded + [r] <= w.produced;
  }

  lemma AnswerIsHead(w: World)
    requires RecordValid(w) && w.link.Answered? && w.link.reply != NOTHING
    ensures |w.recorded| == w.dropped < |w.produced|
    ensures DecodeResult(w.link.reply) == Some(w.produced[w.dropped])
  {
    hide DecodeResult, AckBytes, AskedKnown;
  }

  lemma ArriveKeeps(w: World)
    requires RecordValid(w) && ReadsValid(w) && w.link.Answered? && w.client.acknowledgement in w.asked
    ensures RecordValid(After(w, Arrive)) && ReadsValid(After(w, Arrive))
    ensures w.recorded <= After(w, Arrive).recorded && After(w, Arrive).client.acknowledgement in After(w, Arrive).asked
  {
    hide DecodeResult, AckBytes, RecordValid, Seen;
    AckNonEmpty(w);
    if w.link.reply == NOTHING {
      CountsKeep(w);
      DecideKeeps(Over(w), ReceiveResult(w.client, NOTHING));
    } else {
      AnswerIsHead(w);
      var r := w.produced[w.dropped];
      TakenInKeeps(w, r);
      NotSeenYet(w, r);
      assert After(w, Arrive) == TakenIn(w, r);
    }
  }

  lemma ProduceKeeps(w: World, r: CommandResult)
    requires RecordValid(w) && ReadsValid(w) && Acceptable(w, r)
    ensures RecordValid(After(w, Produce(r))) && ReadsValid(After(w, Produce(r)))
  {
    hide DecodeResult, AckBytes, SameKey;
    var after := w.produced + [r];
    assert forall i | 0 <= i < |w.produced| :: after[i] == w.produced[i] && after[i] in w.produced;
  }

  /** A decision that at most repeats the current acknowledgement leaves the record as it is. */
  lemma DecideKeeps(w: World, d: ResultDecision)
    requires RecordValid(w) && w.client.acknowledgement in w.asked
    requires d.state.recent == w.client.recent && d.state.acknowledgement == w.client.acknowledgement
    requires d.request == [] || d.request == w.client.acknowledgement
    ensures RecordValid(Decide(w, d)) && Decide(w, d).recorded == w.recorded
  {
    hide DecodeResult, AckBytes, ProducedValid, AskedKnown;
    assert w.asked + {w.client.acknowledgement} == w.asked;
  }

  /** Counting leaves the record as it is. */
  lemma CountsKeep(w: World)
    requires RecordValid(w)
    ensures RecordValid(w.(wakes := w.wakes + 1)) && RecordValid(Over(w))
  {
    hide DecodeResult, AckBytes, ProducedValid;
  }

  lemma QuietKeeps(w: World, h: Happening)
    requires RecordValid(w) && ReadsValid(w) && w.client.acknowledgement in w.asked
    requires Enabled(w, h) && (h.Wake? || h.Garble? || h.Fail?)
    ensures RecordValid(After(w, h)) && ReadsValid(After(w, h))
    ensures After(w, h).recorded == w.recorded
  {
    hide DecodeResult, AckBytes, RecordValid;
    AckNonEmpty(w);
    CountsKeep(w);
    match h {
      case Wake => DecideKeeps(w.(wakes := w.wakes + 1), RequestResults(w.client));
      case Garble(reply) => DecideKeeps(Over(w), ReceiveResult(w.client, reply));
      case Fail => DecideKeeps(Over(w), FailedResults(w.client));
    }
  }

  lemma AckNonEmpty(w: World)
    requires RecordValid(w)
    ensures w.client.acknowledgement != []
  {
  }

  ghost predicate WorldValid(w: World) {
    ReadsValid(w) && RecordValid(w) && w.client.acknowledgement in w.asked
  }

  lemma StepKeeps(w: World, h: Happening)
    requires WorldValid(w) && Enabled(w, h)
    ensures WorldValid(After(w, h))
    ensures w.recorded <= After(w, h).recorded && w.produced <= After(w, h).produced
  {
    hide DecodeResult, AckBytes, RecordValid;
    match h {
      case Serve => ServeKeeps(w);
      case ServeLate(q) => ServeLateKeeps(w, q);
      case Arrive => ArriveKeeps(w);
      case Produce(r) => ProduceKeeps(w, r);
      case _ => QuietKeeps(w, h);
    }
    assert w.client.acknowledgement != [] by {
      AckNonEmpty(w);
    }
  }

  /** Over every run, with reads that fail, are repeated or reach the host late: the results
      recorded are, in order and once each, the first ones the host produced; the host has let
      go of no result that is not recorded; nothing recorded is ever forgotten; and while the answer
      "nothing" is under way, all that had been produced when it was given is recorded. */
  lemma {:induction false} RunRecordsOnceInOrder(worlds: seq<World>, happenings: seq<Happening>, i: nat, j: nat)
    requires Run(worlds, happenings)
    requires i <= j < |worlds|
    ensures WorldValid(worlds[i]) && WorldValid(worlds[j])
    ensures worlds[j].recorded <= worlds[j].produced && DistinctKeys(worlds[j].recorded)
    ensures worlds[j].dropped <= |worlds[j].recorded|
    ensures worlds[i].recorded <= worlds[j].recorded
    ensures worlds[j].link == Answered(NOTHING) ==> worlds[j].recorded == worlds[j].produced[..worlds[j].served]
    decreases j
  {
    hide After, Enabled, WorldValid, DistinctKeys;
    if j == 0 {
      InitialValid();
    } else {
      RunRecordsOnceInOrder(worlds, happenings, Min(i, j - 1), j - 1);
      RunStep(worlds, happenings, j - 1);
      StepKeeps(worlds[j - 1], happenings[j - 1]);
    }
    hide Run;
    RecordMeans(worlds[j]);
  }

  lemma RunStep(worlds: seq<World>, happenings: seq<Happening>, i: nat)
    requires Run(worlds, happenings) && i < |happenings|
    ensures Enabled(worlds[i], happenings[i]) && worlds[i + 1] == After(worlds[i], happenings[i])
  {
  }

  lemma InitialValid()
    ensures WorldValid(InitialWorld())
  {
    hide DecodeResult, AckBytes, SameKey;
    var w := InitialWorld();
    assert w.client.recent == w.recorded[SatSub(|w.recorded|, RECENT)..];
  }

  lemma RecordMeans(w: World)
    requires WorldValid(w)
    ensures w.recorded <= w.produced && DistinctKeys(w.recorded) && w.dropped <= |w.recorded|
    ensures w.served <= |w.produced| && (w.link == Answered(NOTHING) ==> w.recorded == w.produced[..w.served])
  {
    hide DecodeResult, AckBytes, SameKey;
  }

  /** There is never more than one read outstanding, and no wakeup is lost: whenever no read is outstanding, a read was issued at or after the
      last wakeup; and while one is outstanding, an uncovered wakeup has a refresh waiting. */
  lemma NoWakeupLost(worlds: seq<World>, happenings: seq<Happening>, i: nat)
    requires Run(worlds, happenings) && i < |worlds|
    ensures worlds[i].pending == if worlds[i].link.NoRead? then 0 else 1
    ensures worlds[i].link.NoRead? ==> worlds[i].covered == worlds[i].wakes
    ensures worlds[i].covered != worlds[i].wakes ==> worlds[i].client.loading && worlds[i].client.refreshPending
  {
    RunRecordsOnceInOrder(worlds, happenings, i, i);
  }

  // ---------------------------------------------------------------- single reads

  /** The first read acknowledges nothing. */
  lemma FirstRead()
    ensures RequestResults(InitialResults()) == ResultDecision(Results([], [1, 0], true, false), [1, 0])
    ensures !InitialResults().loading && !InitialResults().refreshPending
  {
  }

  /** A result that arrives again is acknowledged again and remembered once. */
  lemma RepeatIgnored(s: Results, b: Bytes)
    requires DecodeResult(b).Some?
    ensures var d := ReceiveResult(s, b);
            && ReceiveResult(d.state, b) == d
            && d.request == AckBytes(DecodeResult(b).value.source, DecodeResult(b).value.id)
            && Seen(d.state.recent, DecodeResult(b).value)
  {
    hide DecodeResult, AckBytes;
    var r := DecodeResult(b).value;
    if b != NOTHING && !Seen(s.recent, r) {
      var recent := Remembered(s.recent, r);
      assert recent[|recent| - 1] == r && r in recent && SameKey(r, r);
    }
    NothingIsNoResult();
  }

  lemma NothingIsNoResult()
    ensures DecodeResult(NOTHING).None?
  {
  }

  /** A read that fails, cannot be read, or finds nothing is the last one, unless a wakeup came while
      it was out: then exactly one more is issued. */
  lemma ReadEnds(w: World, h: Happening)
    requires WorldValid(w) && Enabled(w, h)
    requires h.Fail? || h.Garble? || (h.Arrive? && w.link.reply == NOTHING)
    ensures var v := After(w, h);
            if w.client.refreshPending then v.link == Asked(w.client.acknowledgement) && v.pending == 1 && !v.client.refreshPending
            else v.link.NoRead? && v.pending == 0
  {
    hide DecodeResult, AckBytes, RecordValid;
    AckNonEmpty(w);
  }

  // ---------------------------------------------------------------- every result comes to be recorded

  /** One read served and answered: one more result is recorded and the next read is out, or all
      results are recorded, and a further read is out only if a refresh was waiting. */
  lemma ReadAnswered(w: World)
    requires WorldValid(w) && w.link.Asked?
    ensures var v := After(After(w, Serve), Arrive);
            && WorldValid(v) && v.produced == w.produced
            && (if |w.recorded| < |w.produced|
                then v.link.Asked? && |v.recorded| == |w.recorded| + 1
                else v.recorded == v.produced && (if w.client.refreshPending then v.link.Asked? && !v.client.refreshPending
                                                  else v.link.NoRead?))
  {
    hide DecodeResult, AckBytes, RecordValid;
    StepKeeps(w, Serve);
    var u := After(w, Serve);
    ServeReleases(w);
    RecordedFits(w);
    StepKeeps(u, Arrive);
    AckNonEmpty(u);
    if u.link.reply != NOTHING {
      AnswerIsHead(u);
      NotSeenYet(u, u.produced[u.dropped]);
    }
  }

  /** The record is a prefix of what was produced, and no result reads as "nothing". */
  lemma RecordedFits(w: World)
    requires RecordValid(w)
    ensures w.recorded <= w.produced
    ensures |w.recorded| < |w.produced| ==> w.produced[|w.recorded|].body != NOTHING
  {
    assert |w.recorded| < |w.produced| ==> DecodeResult(w.produced[|w.recorded|].body).Some?;
  }

  /** Completeness: once a read is out, and from then on none is lost and nothing new is produced,
      reading goes on until every result is recorded, and then stops. */
  ghost function CaughtUp(w: World): (v: World)
    requires WorldValid(w) && w.link.Asked?
    ensures WorldValid(v) && v.produced == w.produced
    ensures v.recorded == w.produced && v.link.NoRead?
    decreases |w.produced| - |w.recorded|, if w.client.refreshPending then 1 else 0
  {
    ReadAnswered(w);
    assert |w.recorded| <= |w.produced| by {
      RecordedFits(w);
    }
    var v := After(After(w, Serve), Arrive);
    if v.link.Asked? then
      assert |v.recorded| <= |v.produced| by {
        RecordedFits(v);
      }
      CaughtUp(v)
    else v
  }
}
