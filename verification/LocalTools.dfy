/** The cockpit's local-tool lifecycle: launch, admission, status polling, acknowledgement. */
module LocalTools {
  import opened Prelude

  /** The model fields the lifecycle uses. */
  datatype Tool = Tool(
    hostOpen: bool,
    hostBusy: bool,
    hostQuery: Bytes,
    purpose: nat,
    token: Bytes,
    launchPending: bool,
    launchToken: Bytes,
    operationId: U32,
    operationToken: Bytes,
    queued: bool,
    statusBusy: bool)

  datatype Reply = Reply(phase: Byte, operation: U32, token: Bytes)

  /** What a transition asks the host for. */
  datatype Effect = Nothing | Launch | Status | Acknowledge | Delay

  datatype Decision = Decision(tool: Tool, effect: Effect)

  function Initial(): Tool {
    Tool(false, false, [], 0, [], false, [], 0, [], false, false)
  }

  // ---------------------------------------------------------------- transitions

  function LaunchTool(t: Tool): Decision {
    if t.launchPending || t.operationId > 0 then Decision(t, Nothing)
    else if t.hostBusy || |t.token| != 8 then Decision(t, Nothing)
    else if t.purpose == 1 && t.hostQuery == [] then Decision(t, Nothing)
    else Decision(t.(hostBusy := true, launchPending := true, launchToken := t.token), Launch)
  }

  /** The answer to a setup check; a reply that cannot be read is `None`. */
  function ReceiveSetup(t: Tool, reply: Option<Reply>): Decision {
    match reply
    case None => Decision(t.(hostBusy := false), Nothing)
    case Some(r) =>
      if t.token != [] && t.token != r.token then Decision(t, Nothing)
      else
        var next := t.(hostBusy := false, token := r.token);
        if r.phase == 0 && t.purpose == 2 then LaunchTool(next) else Decision(next, Nothing)
  }

  predicate OwnsDialog(t: Tool, token: Bytes) {
    t.hostOpen && t.token == token
  }

  function RejectAdmission(t: Tool): Decision {
    Decision(if OwnsDialog(t, t.launchToken) then t.(hostBusy := false) else t, Nothing)
  }

  function FailAdmission(t: Tool): Decision {
    if !t.launchPending then Decision(t, Nothing) else RejectAdmission(t.(launchPending := false))
  }

  function Queue(t: Tool, operation: U32, token: Bytes): Decision {
    if operation == 0 then RejectAdmission(t)
    else
      var owned := OwnsDialog(t, token);
      Decision(t.(hostOpen := if owned then false else t.hostOpen, hostBusy := if owned then false else t.hostBusy,
                  queued := true, statusBusy := true, operationId := operation, operationToken := token),
               Status)
  }

  function ReceiveAdmission(t: Tool, reply: Option<Reply>): Decision {
    if !t.launchPending then Decision(t, Nothing)
    else if reply.None? then FailAdmission(t)
    else if reply.value.token != t.launchToken then Decision(t, Nothing)
    else
      var next := t.(launchPending := false);
      if reply.value.phase == 1 then Queue(next, reply.value.operation, reply.value.token) else RejectAdmission(next)
  }

  function Poll(t: Tool): Decision {
    if t.operationId == 0 || t.statusBusy then Decision(t, Nothing)
    else Decision(t.(statusBusy := true), if t.queued then Status else Acknowledge)
  }

  predicate Terminal(phase: Byte) {
    phase == 2 || phase == 4 || phase == 5
  }

  function FailStatus(t: Tool): Decision {
    if t.operationId == 0 then Decision(t, Nothing) else Decision(t.(statusBusy := false), Delay)
  }

  predicate Matches(t: Tool, r: Reply) {
    r.operation == t.operationId && r.token == t.operationToken
  }

  function ReceiveStatus(t: Tool, reply: Option<Reply>): Decision {
    if !t.queued then Decision(t, Nothing)
    else if reply.None? then FailStatus(t)
    else if !Matches(t, reply.value) then Decision(t, Nothing)
    else if reply.value.phase == 1 then Decision(t.(statusBusy := false), Delay)
    else if !Terminal(reply.value.phase) then FailStatus(t)
    else Decision(t.(queued := false, statusBusy := true), Acknowledge)
  }

  function ReceiveAck(t: Tool, reply: Option<Reply>): Decision {
    if reply.None? then FailStatus(t)
    else if t.queued || !Matches(t, reply.value) then Decision(t, Nothing)
    else if !Terminal(reply.value.phase) then FailStatus(t)
    else Decision(t.(statusBusy := false, operationId := 0, operationToken := []), Nothing)
  }

  // ---------------------------------------------------------------- any run, any replies

  datatype Event =
    | Submit
    | SetupLoaded(reply: Option<Reply>)
    | LaunchLoaded(reply: Option<Reply>)
    | LaunchFailed
    | Tick
    | StatusLoaded(reply: Option<Reply>)
    | StatusFailed
    | Acknowledged(reply: Option<Reply>)
    | AckFailed
    | Elsewhere(hostOpen: bool, hostBusy: bool, hostQuery: Bytes, purpose: nat, token: Bytes)

  /** `Elsewhere` is any other transition: it may change the dialog, never the lifecycle. */
  function Handle(t: Tool, e: Event): Decision {
    match e
    case Submit => LaunchTool(t)
    case SetupLoaded(r) => ReceiveSetup(t, r)
    case LaunchLoaded(r) => ReceiveAdmission(t, r)
    case LaunchFailed => FailAdmission(t)
    case Tick => Poll(t)
    case StatusLoaded(r) => ReceiveStatus(t, r)
    case StatusFailed => FailStatus(t)
    case Acknowledged(r) => ReceiveAck(t, r)
    case AckFailed => FailStatus(t)
    case Elsewhere(o, b, q, p, k) =>
      Decision(t.(hostOpen := o, hostBusy := b, hostQuery := q, purpose := p, token := k), Nothing)
  }

  ghost predicate Run(tools: seq<Tool>, events: seq<Event>) {
    && |tools| == |events| + 1 && tools[0] == Initial()
    && forall i | 0 <= i < |events| :: tools[i + 1] == Handle(tools[i], events[i]).tool
  }

  /** A launch in flight and an admitted operation never coexist, and an operation is queued
      only while it is admitted. */
  ghost predicate ToolValid(t: Tool) {
    && !(t.launchPending && t.operationId > 0)
    && (t.queued ==> t.operationId > 0)
  }

  lemma {:induction false} RunValid(tools: seq<Tool>, events: seq<Event>, i: nat)
    requires Run(tools, events) && i < |tools|
    ensures ToolValid(tools[i])
  {
    if i > 0 {
      RunValid(tools, events, i - 1);
    }
  }

  /** A launch in flight or an operation admitted. */
  predicate Active(t: Tool) {
    t.launchPending || t.operationId > 0
  }

  /** What ends a launch: it was not admitted, or its outcome was acknowledged by a reply for
      exactly this operation. */
  ghost predicate Ends(t: Tool, e: Event) {
    !Active(Handle(t, e).tool) &&
    ((t.launchPending && (e.LaunchFailed? || e.LaunchLoaded?))
     || (t.operationId > 0 && !t.queued && e.Acknowledged? && e.reply.Some? && Matches(t, e.reply.value) && Terminal(e.reply.value.phase)))
  }

  lemma EndsExactly(t: Tool, e: Event)
    requires Active(t) && !Active(Handle(t, e).tool)
    ensures Ends(t, e)
  {
  }

  lemma {:induction false} SomeStepEnds(tools: seq<Tool>, events: seq<Event>, i: nat, j: nat) returns (k: nat)
    requires Run(tools, events) && i < j < |tools|
    requires Active(tools[i]) && !Active(tools[j])
    ensures i <= k < j && Ends(tools[k], events[k])
    decreases j - i
  {
    hide Handle, Ends;
    if Active(tools[i + 1]) {
      k := SomeStepEnds(tools, events, i + 1, j);
    } else {
      EndsExactly(tools[i], events[i]);
      k := i;
    }
  }

  /** Two launches are always separated by a rejected admission or an acknowledged outcome. */
  lemma LaunchesSeparated(tools: seq<Tool>, events: seq<Event>, i: nat, j: nat) returns (k: nat)
    requires Run(tools, events) && i < j < |events|
    requires Handle(tools[i], events[i]).effect == Launch && Handle(tools[j], events[j]).effect == Launch
    ensures i < k < j && Ends(tools[k], events[k])
  {
    LaunchStarts(tools[i], events[i]);
    LaunchStarts(tools[j], events[j]);
    hide Handle, Ends;
    k := SomeStepEnds(tools, events, i + 1, j);
  }

  lemma LaunchStarts(t: Tool, e: Event)
    requires Handle(t, e).effect == Launch
    ensures !Active(t) && Handle(t, e).tool.launchPending
  {
  }

  // ---------------------------------------------------------------- with a host that answers what it was asked

  /** The lifecycle with what is outstanding: launch, status and acknowledgement requests and
      timer ticks. */
  datatype World = World(tool: Tool, launches: nat, statuses: nat, acks: nat, ticks: nat)

  function InitialWorld(): World {
    World(Initial(), 0, 0, 0, 0)
  }

  /** A reply comes only to a request outstanding, and names its operation and token. */
  predicate Faithful(w: World, e: Event) {
    match e
    case LaunchLoaded(r) => w.launches > 0 && (r.Some? ==> r.value.token == w.tool.launchToken)
    case LaunchFailed => w.launches > 0
    case Tick => w.ticks > 0
    case StatusLoaded(r) => w.statuses > 0 && (r.Some? ==> Matches(w.tool, r.value))
    case StatusFailed => w.statuses > 0
    case Acknowledged(r) => w.acks > 0 && (r.Some? ==> Matches(w.tool, r.value))
    case AckFailed => w.acks > 0
    case _ => true
  }

  /** The event uses up what it answers, the decision adds what it asks for. */
  function After(w: World, e: Event): World
    requires Faithful(w, e)
  {
    var d := Handle(w.tool, e);
    World(d.tool,
          w.launches - (if e.LaunchLoaded? || e.LaunchFailed? then 1 else 0) + (if d.effect.Launch? then 1 else 0),
          w.statuses - (if e.StatusLoaded? || e.StatusFailed? then 1 else 0) + (if d.effect.Status? then 1 else 0),
          w.acks - (if e.Acknowledged? || e.AckFailed? then 1 else 0) + (if d.effect.Acknowledge? then 1 else 0),
          w.ticks - (if e.Tick? then 1 else 0) + (if d.effect.Delay? then 1 else 0))
  }

  /** A pending launch has exactly its request outstanding; an admitted operation has exactly one
      of a status request, an acknowledgement request and a tick outstanding; nothing else is. */
  ghost predicate WorldValid(w: World) {
    && ToolValid(w.tool)
    && w.launches == (if w.tool.launchPending then 1 else 0)
    && w.statuses == (if w.tool.operationId > 0 && w.tool.statusBusy && w.tool.queued then 1 else 0)
    && w.acks == (if w.tool.operationId > 0 && w.tool.statusBusy && !w.tool.queued then 1 else 0)
    && w.ticks == (if w.tool.operationId > 0 && !w.tool.statusBusy then 1 else 0)
  }

  ghost predicate WorldRun(worlds: seq<World>, events: seq<Event>) {
    && |worlds| == |events| + 1 && worlds[0] == InitialWorld()
    && forall i | 0 <= i < |events| :: Faithful(worlds[i], events[i]) && worlds[i + 1] == After(worlds[i], events[i])
  }

  lemma StepValid(w: World, e: Event)
    requires WorldValid(w) && Faithful(w, e)
    ensures WorldValid(After(w, e))
  {
  }

  /** An admitted operation is never stuck and never polled twice at once: until it is
      acknowledged, exactly one thing that will drive it on is outstanding. */
  lemma {:induction false} AlwaysOneOutstanding(worlds: seq<World>, events: seq<Event>, i: nat)
    requires WorldRun(worlds, events) && i < |worlds|
    ensures WorldValid(worlds[i])
    ensures worlds[i].tool.operationId > 0 ==> worlds[i].statuses + worlds[i].acks + worlds[i].ticks == 1
    ensures worlds[i].tool.operationId == 0 ==> worlds[i].statuses + worlds[i].acks + worlds[i].ticks == 0
  {
    if i > 0 {
      AlwaysOneOutstanding(worlds, events, i - 1);
      StepValid(worlds[i - 1], events[i - 1]);
    }
  }

  // ---------------------------------------------------------------- from launch to acknowledgement

  /** A tool is launched exactly when none is active, the dialog is not busy, its token is whole,
      and a purpose that needs a host has one; the launch keeps the dialog's token. */
  lemma LaunchesExactly(t: Tool)
    ensures LaunchTool(t).effect == Launch <==>
              !Active(t) && !t.hostBusy && |t.token| == 8 && (t.purpose == 1 ==> t.hostQuery != [])
    ensures LaunchTool(t).effect == Launch ==>
              LaunchTool(t).tool == t.(hostBusy := true, launchPending := true, launchToken := t.token)
    ensures LaunchTool(t).effect != Launch ==> LaunchTool(t) == Decision(t, Nothing)
  {
  }

  /** The answer to a launch admits exactly the operation it names, and closes the dialog that asked
      for it; an answer of another phase, or without an operation, admits none. */
  lemma AdmitsExactly(t: Tool, r: Reply)
    requires t.launchPending && r.token == t.launchToken
    ensures var d := ReceiveAdmission(t, Some(r));
            && !d.tool.launchPending
            && (r.phase == 1 && r.operation > 0 ==>
                  && d.effect == Status && d.tool.operationId == r.operation && d.tool.operationToken == r.token
                  && d.tool.queued && d.tool.statusBusy
                  && (t.hostOpen && t.token == r.token ==> !d.tool.hostOpen && !d.tool.hostBusy))
            && (r.phase != 1 || r.operation == 0 ==>
                  d.effect == Nothing && d.tool.operationId == t.operationId && d.tool.queued == t.queued)
  {
  }

  /** The part of the tool that belongs to the dialog, not to a launch. */
  function Dialog(t: Tool): (bool, bool, Bytes, nat, Bytes) {
    (t.hostOpen, t.hostBusy, t.hostQuery, t.purpose, t.token)
  }

  /** A reply that names another launch or operation, or comes when none is waited for, changes
      nothing; and a tick asks for nothing while an answer is awaited or no operation is known. */
  lemma StrangersIgnored(t: Tool, e: Event)
    requires
      || (e.LaunchLoaded? && (!t.launchPending || (e.reply.Some? && e.reply.value.token != t.launchToken)))
      || (e.LaunchFailed? && !t.launchPending)
      || (e.StatusLoaded? && (!t.queued || (e.reply.Some? && (e.reply.value.operation != t.operationId || e.reply.value.token != t.operationToken))))
      || (e.Acknowledged? && e.reply.Some? &&
          (t.queued || e.reply.value.operation != t.operationId || e.reply.value.token != t.operationToken))
      || ((e.StatusFailed? || e.AckFailed?) && t.operationId == 0)
      || (e.Tick? && (t.operationId == 0 || t.statusBusy))
    ensures Handle(t, e) == Decision(t, Nothing)
  {
  }

  /** A launch that comes to nothing frees the dialog it came from, if that is still the one shown,
      and leaves any other dialog alone. */
  lemma RefusalFreesOwnDialog(t: Tool, e: Event)
    requires t.launchPending
    requires e.LaunchFailed? || (e.LaunchLoaded? && (e.reply.None? || (e.reply.value.token == t.launchToken && (e.reply.value.phase != 1 || e.reply.value.operation == 0))))
    ensures var d, own := Handle(t, e), t.hostOpen && t.token == t.launchToken;
            d == Decision(t.(launchPending := false, hostBusy := if own then false else t.hostBusy), Nothing)
  {
  }

  /** One that is admitted closes that dialog, and no other. */
  lemma AdmissionClosesOwnDialog(t: Tool, r: Reply)
    requires t.launchPending && r.token == t.launchToken && r.phase == 1 && r.operation > 0
    ensures var d := ReceiveAdmission(t, Some(r)).tool;
            Dialog(d) == if t.hostOpen && t.token == t.launchToken then (false, false, t.hostQuery, t.purpose, t.token) else Dialog(t)
  {
  }

  /** A setup check that cannot be read frees the dialog; one for a dialog shown earlier is passed
      over; any other gives the dialog its token, and launches at once if that is all it was for. */
  lemma SetupExactly(t: Tool, reply: Option<Reply>)
    ensures var d := ReceiveSetup(t, reply);
            && (reply.None? ==> d == Decision(t.(hostBusy := false), Nothing))
            && (reply.Some? && t.token != [] && t.token != reply.value.token ==> d == Decision(t, Nothing))
            && (reply.Some? && (t.token == [] || t.token == reply.value.token) ==>
                  && d.tool.token == reply.value.token && d.tool.hostQuery == t.hostQuery && d.tool.purpose == t.purpose
                  && (d.effect == Launch <==>
                        reply.value.phase == 0 && t.purpose == 2 && |reply.value.token| == 8 && !Active(t))
                  && d.tool.hostBusy == (d.effect == Launch) && d.tool.launchPending == (t.launchPending || d.effect == Launch)
                  && d.tool.operationId == t.operationId && d.tool.queued == t.queued)
  {
  }

  /** A status for the operation: still running, or unreadable, or of a phase that is no end, waits
      for the next tick; one of the three ends is acknowledged. */
  lemma StatusExactly(t: Tool, reply: Option<Reply>)
    requires t.queued && t.operationId > 0
    requires reply.Some? ==> reply.value.operation == t.operationId && reply.value.token == t.operationToken
    ensures var ended := reply.Some? && reply.value.phase in [2, 4, 5];
            ReceiveStatus(t, reply) ==
            if ended then Decision(t.(queued := false, statusBusy := true), Acknowledge)
            else Decision(t.(statusBusy := false), Delay)
  {
  }

  /** And an acknowledgement of an end clears the operation, anything else is tried again. */
  lemma AckExactly(t: Tool, reply: Option<Reply>)
    requires !t.queued && t.operationId > 0
    requires reply.Some? ==> reply.value.operation == t.operationId && reply.value.token == t.operationToken
    ensures var ended := reply.Some? && reply.value.phase in [2, 4, 5];
            ReceiveAck(t, reply) ==
            if ended then Decision(t.(statusBusy := false, operationId := 0, operationToken := []), Nothing)
            else Decision(t.(statusBusy := false), Delay)
  {
  }

  /** What a host that answers sends, in order: the admission, any number of times that the
      operation is still running, its end, and the acknowledgement. */
  function Answers(operation: U32, token: Bytes, running: nat, phase: Byte): seq<Event> {
    [LaunchLoaded(Some(Reply(1, operation, token)))] + Running(operation, token, running) +
    [StatusLoaded(Some(Reply(phase, operation, token))), Acknowledged(Some(Reply(phase, operation, token)))]
  }

  function Running(operation: U32, token: Bytes, n: nat): seq<Event> {
    if n == 0 then [] else Running(operation, token, n - 1) + [StatusLoaded(Some(Reply(1, operation, token))), Tick]
  }

  ghost predicate AllFaithful(w: World, events: seq<Event>)
    decreases |events|, 0
  {
    events == [] || (AllFaithful(w, Init(events)) && Faithful(Play(w, Init(events)), events[|events| - 1]))
  }

  function Init(events: seq<Event>): seq<Event>
    requires events != []
  {
    events[..|events| - 1]
  }

  ghost function Play(w: World, events: seq<Event>): World
    requires AllFaithful(w, events)
    decreases |events|, 1
  {
    if events == [] then w else After(Play(w, Init(events)), events[|events| - 1])
  }

  lemma PlayOne(w: World, events: seq<Event>, e: Event)
    requires AllFaithful(w, events) && Faithful(Play(w, events), e)
    ensures AllFaithful(w, events + [e]) && Play(w, events + [e]) == After(Play(w, events), e)
  {
    assert Init(events + [e]) == events;
  }

  /** The world while an admitted operation waits for the answer to a status request. */
  ghost predicate Polling(w: World, operation: U32, token: Bytes) {
    && WorldValid(w) && w.tool.operationId == operation > 0 && w.tool.operationToken == token
    && w.tool.queued && w.tool.statusBusy
  }

  lemma AdmittedPolls(w: World, operation: U32)
    requires WorldValid(w) && w.tool.launchPending && operation > 0
    ensures var e := LaunchLoaded(Some(Reply(1, operation, w.tool.launchToken)));
            Faithful(w, e) && Polling(After(w, e), operation, w.tool.launchToken)
  {
  }

  lemma RunningPolls(w: World, operation: U32, token: Bytes)
    requires Polling(w, operation, token)
    ensures var e := StatusLoaded(Some(Reply(1, operation, token)));
            Faithful(w, e) && Faithful(After(w, e), Tick) && Polling(After(After(w, e), Tick), operation, token)
  {
  }

  lemma EndedIsOver(w: World, operation: U32, token: Bytes, phase: Byte)
    requires Polling(w, operation, token) && phase in [2, 4, 5]
    ensures var e, a := StatusLoaded(Some(Reply(phase, operation, token))), Acknowledged(Some(Reply(phase, operation, token)));
            && Faithful(w, e) && Faithful(After(w, e), a)
            && var z := After(After(w, e), a);
               !Active(z.tool) && z.launches + z.statuses + z.acks + z.ticks == 0
  {
  }

  lemma {:induction false} StillRunning(w: World, before: seq<Event>, operation: U32, token: Bytes, n: nat)
    requires AllFaithful(w, before) && Polling(Play(w, before), operation, token)
    ensures AllFaithful(w, before + Running(operation, token, n))
    ensures Polling(Play(w, before + Running(operation, token, n)), operation, token)
    decreases n
  {
    if n == 0 {
      assert before + Running(operation, token, n) == before;
    } else {
      hide Play, AllFaithful, After, Faithful, Polling;
      StillRunning(w, before, operation, token, n - 1);
      var events := before + Running(operation, token, n - 1);
      var status := StatusLoaded(Some(Reply(1, operation, token)));
      RunningPolls(Play(w, events), operation, token);
      PlayOne(w, events, status);
      PlayOne(w, events + [status], Tick);
      assert before + Running(operation, token, n) == events + [status] + [Tick];
    }
  }

  /** A host that answers brings every launch to its end: whatever operation it admits, however often
      it reports it as running, and with whichever of the three final phases, the last answer leaves
      nothing active and nothing outstanding. */
  lemma LaunchCompletes(w: World, operation: U32, running: nat, phase: Byte)
    requires WorldValid(w) && w.tool.launchPending && operation > 0 && phase in [2, 4, 5]
    ensures AllFaithful(w, Answers(operation, w.tool.launchToken, running, phase))
    ensures var z := Play(w, Answers(operation, w.tool.launchToken, running, phase));
            !Active(z.tool) && z.launches + z.statuses + z.acks + z.ticks == 0
  {
    var token := w.tool.launchToken;
    var admitted := LaunchLoaded(Some(Reply(1, operation, token)));
    AdmittedPolls(w, operation);
    PlayOne(w, [], admitted);
    assert [] + [admitted] == [admitted];
    hide Play, AllFaithful, Running, After, Faithful, Polling;
    StillRunning(w, [admitted], operation, token, running);
    var events := [admitted] + Running(operation, token, running);
    EndedIsOver(Play(w, events), operation, token, phase);
    var ended := StatusLoaded(Some(Reply(phase, operation, token)));
    PlayOne(w, events, ended);
    PlayOne(w, events + [ended], Acknowledged(Some(Reply(phase, operation, token))));
    assert Answers(operation, token, running, phase) ==
           events + [ended] + [Acknowledged(Some(Reply(phase, operation, token)))];
  }
}
