/** The browser's native replica adapter: it drives a checkpoint decoder it does not trust
    through bootstrap, history import and live output. */
module NativeReplicas {
  import opened Prelude

  type Terminal = nat

  datatype Kind = NeedInput | Progress | Ready | HistoryBegin | HistoryPage | Finish

  /** One answer of the decoder. */
  datatype DecodeEvent = DecodeEvent(consumed: nat, kind: Kind, terminal: Option<Terminal>, retained: bool)

  datatype EngineError =
    | NativeError
    | PayloadLimitExceeded(actual: nat, limit: nat)
    | InvalidTransition
    | InvalidProgress(consumed: nat, available: nat)
    | TrailingAfterReady(bytes: nat)
    | TrailingAfterFinish(bytes: nat)

  datatype BootstrapProgress = Pending | Readied | Finished

  datatype HistoryOutcome = HistoryOutcome(progress: BootstrapProgress, retained: bool)

  /** The answers that belong to the bootstrap, and those that belong to history. */
  predicate Belongs(k: Kind, history: bool) {
    match k
    case NeedInput => true
    case Progress => true
    case Ready => !history
    case HistoryBegin => history
    case HistoryPage => history
    case Finish => history
  }

  // ---------------------------------------------------------------- what calls may look like

  /** A call that got past the adapter's own checks. For one that feeds the decoder: the part of
      the payload the decoder consumed, whether it handed over a terminal with READY or answered
      FINISH, and whether the call succeeded. */
  datatype Done =
    | DidChunk(payload: Bytes, taken: Bytes, ready: bool, ok: bool)
    | DidFinishBootstrap
    | DidPage(payload: Bytes, taken: Bytes, finished: bool, ok: bool)
    | DidOutput(payload: Bytes)

  predicate SawReady(trace: seq<Done>) { exists d :: d in trace && d.DidChunk? && d.ready }

  predicate SawFinishBootstrap(trace: seq<Done>) { DidFinishBootstrap in trace }

  predicate SawFinish(trace: seq<Done>) { exists d :: d in trace && d.DidPage? && d.finished }

  /** The call may follow the trace: bootstrap only until it is finished, which happens at most
      once and only after READY; history only between that and FINISH; output after READY. */
  predicate MayFollow(trace: seq<Done>, d: Done) {
    match d
    case DidChunk(_, _, _, _) => !SawFinishBootstrap(trace)
    case DidFinishBootstrap => !SawFinishBootstrap(trace) && SawReady(trace)
    case DidPage(_, _, _, _) => SawFinishBootstrap(trace) && !SawFinish(trace)
    case DidOutput(_) => SawReady(trace)
  }

  /** The decoder gets a payload from its start on, and all of it if the call succeeds. */
  predicate InOrder(d: Done) {
    d.DidChunk? || d.DidPage? ==> d.taken <= d.payload && (d.ok ==> d.taken == d.payload)
  }

  ghost predicate Legal(trace: seq<Done>) {
    forall i | 0 <= i < |trace| :: MayFollow(trace[..i], trace[i]) && InOrder(trace[i])
  }

  /** The payload bytes that went to the decoder, in order. */
  function Fed(trace: seq<Done>): Bytes {
    if trace == [] then []
    else
      var d := trace[|trace| - 1];
      Fed(trace[..|trace| - 1]) + if d.DidChunk? || d.DidPage? then d.taken else []
  }

  datatype Call = Chunk(payload: Bytes) | EndBootstrap | Page(payload: Bytes) | Output(payload: Bytes)

  /** The calls of a trace that succeeded. */
  function Successes(trace: seq<Done>): seq<Call> {
    if trace == [] then []
    else Successes(trace[..|trace| - 1]) + Success(trace[|trace| - 1])
  }

  function Success(d: Done): seq<Call> {
    match d
    case DidChunk(p, _, _, ok) => if ok then [Chunk(p)] else []
    case DidFinishBootstrap => [EndBootstrap]
    case DidPage(p, _, _, ok) => if ok then [Page(p)] else []
    case DidOutput(p) => [Output(p)]
  }

  lemma LegalAppend(trace: seq<Done>, d: Done)
    requires Legal(trace) && MayFollow(trace, d) && InOrder(d)
    ensures Legal(trace + [d])
    ensures SawReady(trace + [d]) <==> SawReady(trace) || (d.DidChunk? && d.ready)
    ensures SawFinishBootstrap(trace + [d]) <==> SawFinishBootstrap(trace) || d.DidFinishBootstrap?
    ensures SawFinish(trace + [d]) <==> SawFinish(trace) || (d.DidPage? && d.finished)
    ensures Fed(trace + [d]) == Fed(trace) + if d.DidChunk? || d.DidPage? then d.taken else []
  {
    var t := trace + [d];
    assert t[..|trace|] == trace;
    SawAppend(trace, d);
    hide MayFollow, SawReady, SawFinish, SawFinishBootstrap;
    assert forall i | 0 <= i < |trace| :: t[..i] == trace[..i];
  }

  lemma SawAppend(trace: seq<Done>, d: Done)
    ensures SawReady(trace + [d]) <==> SawReady(trace) || (d.DidChunk? && d.ready)
    ensures SawFinishBootstrap(trace + [d]) <==> SawFinishBootstrap(trace) || d.DidFinishBootstrap?
    ensures SawFinish(trace + [d]) <==> SawFinish(trace) || (d.DidPage? && d.finished)
  {
    var t := trace + [d];
    assert forall x :: x in t <==> x in trace || x == d;
  }

  /** After FINISH, even one that came in a refused call, nothing but live output gets past the
      adapter. */
  lemma AfterFinishOnlyOutput(trace: seq<Done>, i: nat, j: nat)
    requires Legal(trace) && i < j < |trace|
    requires trace[i].DidPage? && trace[i].finished
    ensures trace[j].DidOutput?
  {
    var before := trace[..j];
    assert before[i] == trace[i];
    assert SawFinish(before);
    assert MayFollow(trace[..i], trace[i]);
    var k :| 0 <= k < i && trace[..i][k] == DidFinishBootstrap;
    assert before[k] == DidFinishBootstrap;
    assert MayFollow(trace[..j], trace[j]);
  }

  /** Nothing that belongs to the bootstrap, its end included, follows its end. */
  lemma NoBootstrapAfterItsEnd(trace: seq<Done>, m: nat)
    requires Legal(trace) && m < |trace| && (trace[m].DidChunk? || trace[m].DidFinishBootstrap?)
    ensures forall j | 0 <= j < m :: trace[j] != DidFinishBootstrap
  {
    assert MayFollow(trace[..m], trace[m]);
    assert forall j | 0 <= j < m :: trace[j] == trace[..m][j] && trace[j] in trace[..m];
  }

  /** History was imported only after READY and the one end of the bootstrap, and no bootstrap
      input was accepted from then on. */
  lemma HistoryOnlyAfterBootstrap(trace: seq<Done>, i: nat) returns (r: nat, k: nat)
    requires Legal(trace) && i < |trace| && trace[i].DidPage?
    ensures r < k < i && trace[r].DidChunk? && trace[r].ready && trace[k] == DidFinishBootstrap
    ensures forall m | 0 <= m < |trace| && trace[m] == DidFinishBootstrap :: m == k
    ensures forall m | k < m < |trace| :: !trace[m].DidChunk?
  {
    assert MayFollow(trace[..i], trace[i]);
    k :| 0 <= k < i && trace[..i][k] == DidFinishBootstrap;
    assert MayFollow(trace[..k], trace[k]);
    var d :| d in trace[..k] && d.DidChunk? && d.ready;
    r :| 0 <= r < k && trace[..k][r] == d;
    forall m | 0 <= m < |trace| && (trace[m].DidChunk? || trace[m].DidFinishBootstrap?)
      ensures forall j | 0 <= j < m :: trace[j] != DidFinishBootstrap
    {
      NoBootstrapAfterItsEnd(trace, m);
    }
  }

  // ---------------------------------------------------------------- the adapter

  class NativeReplica {
    /** The decoder, arbitrary: its answer, or an error, to everything it has been handed. */
    const decoder: seq<Bytes> -> Option<DecodeEvent>
    /** Whether a terminal takes a history budget. */
    const takesBudget: (Terminal, nat, nat) -> bool
    const maxChunkBytes: nat
    const maxHistoryPageBytes: nat
    var pushes: seq<Bytes>
    var terminal: Option<Terminal>
    var protocolFinished: bool
    var decoderFinished: bool
    var budget: Option<(nat, nat)>
    var written: seq<(Terminal, Bytes)>
    /** The bytes the decoder consumed, and the calls so far, refused ones included. */
    ghost var fed: Bytes
    ghost var trace: seq<Done>

    ghost predicate Valid()
      reads this
    {
      && Legal(trace)
      && (terminal.Some? ==> SawReady(trace))
      && (protocolFinished <==> SawFinishBootstrap(trace))
      && (decoderFinished <==> SawFinish(trace))
      && fed == Fed(trace)
    }

    constructor (decoder: seq<Bytes> -> Option<DecodeEvent>, takesBudget: (Terminal, nat, nat) -> bool,
                 maxChunkBytes: nat, maxHistoryPageBytes: nat)
      ensures Valid() && trace == [] && pushes == [] && written == []
      ensures terminal.None? && budget.None? && !protocolFinished && !decoderFinished
      ensures this.decoder == decoder && this.takesBudget == takesBudget
      ensures this.maxChunkBytes == maxChunkBytes && this.maxHistoryPageBytes == maxHistoryPageBytes
    {
      this.decoder, this.takesBudget := decoder, takesBudget;
      this.maxChunkBytes, this.maxHistoryPageBytes := maxChunkBytes, maxHistoryPageBytes;
      pushes, terminal, protocolFinished, decoderFinished := [], None, false, false;
      budget, written := None, [];
      fed, trace := [], [];
    }

    method ConfigureHistoryBudget(maxBytes: nat, maxRows: nat) returns (ok: bool)
      requires Valid()
      modifies `budget
      ensures Valid()
      ensures budget == Some((Max(maxBytes, 1), Max(maxRows, 1)))
      ensures ok <==> terminal.None? || takesBudget(terminal.value, Max(maxBytes, 1), Max(maxRows, 1))
    {
      budget := Some((Max(maxBytes, 1), Max(maxRows, 1)));
      ok := terminal.None? || takesBudget(terminal.value, budget.value.0, budget.value.1);
    }

    /** Hand the decoder what is left of a payload; refuse an answer that makes no progress or
        claims more than it was given. */
    method PushDecoder(remaining: Bytes) returns (r: Result<DecodeEvent, EngineError>)
      modifies `pushes, `fed
      ensures pushes == old(pushes) + [remaining]
      ensures r.Ok? ==> decoder(pushes) == Some(r.value) && 0 < r.value.consumed <= |remaining|
      ensures fed == old(fed) + if r.Ok? then remaining[..r.value.consumed] else []
      ensures r.Err? <==> decoder(pushes).None? || !(0 < decoder(pushes).value.consumed <= |remaining|)
      ensures r.Err? ==>
                r.error == if decoder(pushes).None? then NativeError else InvalidProgress(decoder(pushes).value.consumed, |remaining|)
    {
      pushes := pushes + [remaining];
      var event := decoder(pushes);
      if event.None? {
        return Err(NativeError);
      }
      if event.value.consumed == 0 || event.value.consumed > |remaining| {
        return Err(InvalidProgress(event.value.consumed, |remaining|));
      }
      fed := fed + remaining[..event.value.consumed];
      return Ok(event.value);
    }

    /** Why an answer to `available` bytes ends a bootstrap call in an error, if it does. */
    function BootstrapRefusal(answer: Option<DecodeEvent>, available: nat, budget: Option<(nat, nat)>): Option<EngineError> {
      match answer
      case None => Some(NativeError)
      case Some(e) =>
        if e.consumed == 0 || e.consumed > available then Some(InvalidProgress(e.consumed, available))
        else if e.kind.HistoryBegin? || e.kind.HistoryPage? || e.kind.Finish? then Some(InvalidTransition)
        else if !e.kind.Ready? then None
        else if e.terminal.None? then Some(InvalidTransition)
        else if budget.Some? && !takesBudget(e.terminal.value, budget.value.0, budget.value.1) then Some(NativeError)
        else if e.consumed < available then Some(TrailingAfterReady(available - e.consumed))
        else None
    }

    /** Why an answer to `available` bytes ends a history call in an error, if it does. */
    function HistoryRefusal(answer: Option<DecodeEvent>, available: nat): Option<EngineError> {
      match answer
      case None => Some(NativeError)
      case Some(e) =>
        if e.consumed == 0 || e.consumed > available then Some(InvalidProgress(e.consumed, available))
        else if e.kind.Ready? then Some(InvalidTransition)
        else if e.kind.Finish? && e.consumed < available then Some(TrailingAfterFinish(available - e.consumed))
        else None
    }

    /** The last answer was READY, within bounds. */
    predicate SaysReady(ps: seq<Bytes>) {
      && ps != [] && decoder(ps).Some?
      && 0 < decoder(ps).value.consumed <= |ps[|ps| - 1]| && decoder(ps).value.kind.Ready?
    }

    /** It was, and it came with a terminal. */
    predicate HandsOver(ps: seq<Bytes>) {
      SaysReady(ps) && decoder(ps).value.terminal.Some?
    }

    /** The last push was what was left of the payload, and not nothing. */
    predicate LastPushed(ps: seq<Bytes>, payload: Bytes) {
      && ps != []
      && var last := ps[|ps| - 1];
         0 < |last| <= |payload| && last == payload[|payload| - |last|..]
    }

    /** Every answer from push `from` on was one that belongs there. */
    predicate Only(ps: seq<Bytes>, from: nat, history: bool) {
      forall i | from < i <= |ps| :: decoder(ps[..i]).Some? && Belongs(decoder(ps[..i]).value.kind, history)
    }

    lemma OnlyPush(ps: seq<Bytes>, remaining: Bytes, from: nat, history: bool)
      requires from <= |ps| && Only(ps, from, history)
      ensures var qs := ps + [remaining];
              decoder(qs).Some? && Belongs(decoder(qs).value.kind, history) ==> Only(qs, from, history)
    {
      var qs := ps + [remaining];
      assert qs[..|qs|] == qs;
      assert forall i | from < i <= |ps| :: qs[..i] == ps[..i];
    }

    lemma OnlyNone(ps: seq<Bytes>, history: bool)
      ensures Only(ps, |ps|, history)
    {
    }

    lemma PushedLast(ps: seq<Bytes>, payload: Bytes, at: nat)
      requires at < |payload| && ps != [] && ps[|ps| - 1] == payload[at..]
      ensures LastPushed(ps, payload)
    {
    }

    /** Push the payload until the decoder has all of it, hands over a terminal, or is refused. */
    method FeedBootstrap(payload: Bytes)
      returns (r: Result<BootstrapProgress, EngineError>, ghost taken: Bytes, ghost ready: bool)
      modifies `pushes, `fed, `terminal
      ensures taken <= payload && fed == old(fed) + taken && (r.Ok? ==> taken == payload)
      ensures ready <==> |pushes| > |old(pushes)| && HandsOver(pushes)
      ensures terminal == if |pushes| > |old(pushes)| && SaysReady(pushes) then decoder(pushes).value.terminal else old(terminal)
      ensures r.Ok? ==> r.value == if ready then Readied else Pending
      ensures payload != [] ==>
                && |pushes| > |old(pushes)| && LastPushed(pushes, payload)
                && BootstrapRefusal(decoder(pushes), |pushes[|pushes| - 1]|, budget) == if r.Err? then Some(r.error) else None
      ensures payload == [] ==> r == Ok(Pending) && pushes == old(pushes)
      ensures r.Ok? ==> Only(pushes, |old(pushes)|, false)
    {
      hide LastPushed, SaysReady, Only;
      OnlyNone(pushes, false);
      var at := 0;
      taken, ready := [], false;
      while at < |payload|
        invariant at <= |payload| && taken == payload[..at]
        invariant fed == old(fed) + taken && terminal == old(terminal) && !ready
        invariant |old(pushes)| <= |pushes| && Only(pushes, |old(pushes)|, false)
        invariant if at == 0 then pushes == old(pushes)
                  else && |pushes| > |old(pushes)| && LastPushed(pushes, payload) && !SaysReady(pushes)
                       && BootstrapRefusal(decoder(pushes), |pushes[|pushes| - 1]|, budget).None?
      {
        var remaining := payload[at..];
        OnlyPush(pushes, remaining, |old(pushes)|, false);
        var pushed := PushDecoder(remaining);
        PushedLast(pushes, payload, at);
        HandsOverMeans(pushes);
        if pushed.Err? {
          return Err(pushed.error), taken, ready;
        }
        var event := pushed.value;
        taken := payload[..at + event.consumed];
        Slices(payload, at, event.consumed);
        at := at + event.consumed;
        match event.kind {
          case NeedInput | Progress =>
          case Ready =>
            terminal := event.terminal;
            if terminal.None? {
              return Err(InvalidTransition), taken, ready;
            }
            ready := true;
            if budget.Some? && !takesBudget(terminal.value, budget.value.0, budget.value.1) {
              return Err(NativeError), taken, ready;
            }
            if at < |payload| {
              return Err(TrailingAfterReady(|payload| - at)), taken, ready;
            }
            return Ok(Readied), taken, ready;
          case HistoryBegin | HistoryPage | Finish =>
            return Err(InvalidTransition), taken, ready;
        }
      }
      return Ok(Pending), taken, ready;
    }

    /** READY is let pass only if the terminal takes the budget there is. */
    lemma ReadyTakesBudget(ps: seq<Bytes>, budget: Option<(nat, nat)>)
      requires HandsOver(ps) && BootstrapRefusal(decoder(ps), |ps[|ps| - 1]|, budget).None? && budget.Some?
      ensures takesBudget(decoder(ps).value.terminal.value, budget.value.0, budget.value.1)
    {
    }

    lemma HandsOverMeans(ps: seq<Bytes>)
      requires ps != []
      ensures SaysReady(ps) <==>
                decoder(ps).Some? && 0 < decoder(ps).value.consumed <= |ps[|ps| - 1]| && decoder(ps).value.kind.Ready?
      ensures HandsOver(ps) <==> SaysReady(ps) && decoder(ps).value.terminal.Some?
    {
    }

    lemma Slices(payload: Bytes, at: nat, n: nat)
      requires at + n <= |payload|
      ensures payload[..at + n] == payload[..at] + payload[at..][..n]
    {
    }

    /** Refused without the decoder being asked, or fed to it from the start of the payload on, all
        of it on success. The terminal is replaced by what comes with READY, by none if none comes,
        and kept otherwise; the result is `Readied` exactly when one came with the last byte. */
    method ApplyBootstrapChunk(payload: Bytes) returns (r: Result<BootstrapProgress, EngineError>)
      requires Valid()
      modifies `pushes, `fed, `terminal, `trace
      ensures Valid()
      ensures |payload| > maxChunkBytes ==> r == Err(PayloadLimitExceeded(|payload|, maxChunkBytes))
      ensures |payload| <= maxChunkBytes && (protocolFinished || decoderFinished) ==> r == Err(InvalidTransition)
      ensures |payload| > maxChunkBytes || protocolFinished || decoderFinished ==>
                trace == old(trace) && pushes == old(pushes) && fed == old(fed) && terminal == old(terminal)
      ensures |payload| <= maxChunkBytes && !protocolFinished && !decoderFinished ==>
                && |trace| == |old(trace)| + 1 && trace[..|old(trace)|] == old(trace)
                && var d := trace[|old(trace)|];
                   && d.DidChunk? && d.payload == payload && d.ok == r.Ok?
                   && fed == old(fed) + d.taken
                   && (d.ready <==> |pushes| > |old(pushes)| && HandsOver(pushes))
                   && terminal == (if |pushes| > |old(pushes)| && SaysReady(pushes) then decoder(pushes).value.terminal
                                   else old(terminal))
                   && (r.Ok? ==> r.value == if d.ready then Readied else Pending)
      ensures payload != [] && |payload| <= maxChunkBytes && !protocolFinished && !decoderFinished ==>
                && |pushes| > |old(pushes)| && LastPushed(pushes, payload)
                && BootstrapRefusal(decoder(pushes), |pushes[|pushes| - 1]|, budget) == if r.Err? then Some(r.error) else None
      ensures payload == [] && !protocolFinished && !decoderFinished ==> r == Ok(Pending)
      ensures r.Ok? ==> Only(pushes, |old(pushes)|, false)
      ensures r == Ok(Readied) && budget.Some? ==> terminal.Some? && takesBudget(terminal.value, budget.value.0, budget.value.1)
    {
      hide Only, Legal, SawReady, SawFinish, SawFinishBootstrap, Fed, LastPushed, BootstrapRefusal;
      if |payload| > maxChunkBytes {
        return Err(PayloadLimitExceeded(|payload|, maxChunkBytes));
      }
      if protocolFinished || decoderFinished {
        return Err(InvalidTransition);
      }
      ghost var taken, ready;
      r, taken, ready := FeedBootstrap(payload);
      if r == Ok(Readied) && budget.Some? {
        ReadyTakesBudget(pushes, budget);
      }
      Record(DidChunk(payload, taken, ready, r.Ok?));
    }

    /** Note a call in the trace. */
    ghost method Record(d: Done)
      requires Legal(trace) && MayFollow(trace, d) && InOrder(d)
      modifies `trace
      ensures trace == old(trace) + [d] && Legal(trace)
      ensures SawReady(trace) <==> SawReady(old(trace)) || (d.DidChunk? && d.ready)
      ensures SawFinishBootstrap(trace) <==> SawFinishBootstrap(old(trace)) || d.DidFinishBootstrap?
      ensures SawFinish(trace) <==> SawFinish(old(trace)) || (d.DidPage? && d.finished)
      ensures Fed(trace) == Fed(old(trace)) + if d.DidChunk? || d.DidPage? then d.taken else []
    {
      LegalAppend(trace, d);
      trace := trace + [d];
    }

    /** Succeeds exactly once, and only when a terminal has been handed over. */
    method FinishBootstrap() returns (r: Result<BootstrapProgress, EngineError>)
      requires Valid()
      modifies `protocolFinished, `trace
      ensures Valid()
      ensures r == if terminal.Some? && !old(protocolFinished) then Ok(Finished) else Err(InvalidTransition)
      ensures r.Ok? ==> protocolFinished && trace == old(trace) + [DidFinishBootstrap]
      ensures r.Err? ==> protocolFinished == old(protocolFinished) && trace == old(trace)
    {
      hide Legal, SawReady, SawFinish, SawFinishBootstrap, Fed;
      if terminal.None? {
        return Err(InvalidTransition);
      }
      var before := protocolFinished;
      protocolFinished := true;
      if before {
        return Err(InvalidTransition);
      }
      Record(DidFinishBootstrap);
      return Ok(Finished);
    }

    /** The last answer was FINISH, within bounds. */
    predicate Finishes(ps: seq<Bytes>) {
      && ps != [] && decoder(ps).Some?
      && 0 < decoder(ps).value.consumed <= |ps[|ps| - 1]| && decoder(ps).value.kind.Finish?
    }

    /** Push the payload until the decoder has all of it, has finished, or is refused. */
    method FeedHistory(payload: Bytes) returns (r: Result<HistoryOutcome, EngineError>, ghost taken: Bytes)
      requires !decoderFinished
      modifies `pushes, `fed, `decoderFinished
      ensures old(pushes) <= pushes
      ensures taken <= payload && fed == old(fed) + taken && (r.Ok? ==> taken == payload)
      ensures decoderFinished <==> |pushes| > |old(pushes)| && Finishes(pushes)
      ensures r.Ok? ==> r.value.progress == if decoderFinished then Finished else Readied
      ensures r.Ok? ==> (r.value.retained <==> AllRetained(pushes, |old(pushes)|))
      ensures payload != [] ==>
                && |pushes| > |old(pushes)| && LastPushed(pushes, payload)
                && HistoryRefusal(decoder(pushes), |pushes[|pushes| - 1]|) == if r.Err? then Some(r.error) else None
      ensures payload == [] ==> r == Ok(HistoryOutcome(Readied, true)) && pushes == old(pushes)
      ensures r.Ok? ==> Only(pushes, |old(pushes)|, true)
    {
      hide AllRetained, LastPushed, Only;
      OnlyNone(pushes, true);
      var retained := true;
      NothingPushed();
      var at := 0;
      taken := [];
      while at < |payload|
        invariant at <= |payload| && taken == payload[..at]
        invariant fed == old(fed) + taken && !decoderFinished && old(pushes) <= pushes
        invariant retained <==> AllRetained(pushes, |old(pushes)|)
        invariant Only(pushes, |old(pushes)|, true)
        invariant if at == 0 then pushes == old(pushes) && retained
                  else && |pushes| > |old(pushes)| && LastPushed(pushes, payload) && !Finishes(pushes)
                       && HistoryRefusal(decoder(pushes), |pushes[|pushes| - 1]|).None?
      {
        var remaining := payload[at..];
        AllRetainedPush(pushes, remaining, |old(pushes)|);
        OnlyPush(pushes, remaining, |old(pushes)|, true);
        var pushed := PushDecoder(remaining);
        PushedLast(pushes, payload, at);
        if pushed.Err? {
          return Err(pushed.error), taken;
        }
        var event := pushed.value;
        taken := payload[..at + event.consumed];
        Slices(payload, at, event.consumed);
        at := at + event.consumed;
        match event.kind {
          case NeedInput | Progress | HistoryBegin =>
          case HistoryPage =>
            retained := retained && event.retained;
          case Finish =>
            decoderFinished := true;
            if at < |payload| {
              return Err(TrailingAfterFinish(|payload| - at)), taken;
            }
            return Ok(HistoryOutcome(Finished, retained)), taken;
          case Ready =>
            return Err(InvalidTransition), taken;
        }
      }
      return Ok(HistoryOutcome(Readied, retained)), taken;
    }

    method ApplyHistoryPage(payload: Bytes) returns (r: Result<HistoryOutcome, EngineError>)
      requires Valid()
      modifies `pushes, `fed, `decoderFinished, `trace
      ensures Valid() && old(pushes) <= pushes
      ensures |payload| > maxHistoryPageBytes ==> r == Err(PayloadLimitExceeded(|payload|, maxHistoryPageBytes))
      ensures |payload| <= maxHistoryPageBytes && (!protocolFinished || old(decoderFinished)) ==> r == Err(InvalidTransition)
      ensures |payload| > maxHistoryPageBytes || !protocolFinished || old(decoderFinished) ==>
                trace == old(trace) && pushes == old(pushes) && fed == old(fed) && decoderFinished == old(decoderFinished)
      ensures |payload| <= maxHistoryPageBytes && protocolFinished && !old(decoderFinished) ==>
                && |trace| == |old(trace)| + 1 && trace[..|old(trace)|] == old(trace)
                && var d := trace[|old(trace)|];
                   && d.DidPage? && d.payload == payload && d.ok == r.Ok?
                   && fed == old(fed) + d.taken
                   && (d.finished <==> decoderFinished)
                   && (d.finished <==> |pushes| > |old(pushes)| && Finishes(pushes))
                   && (r.Ok? ==> r.value.progress == if d.finished then Finished else Readied)
                   && (r.Ok? ==> (r.value.retained <==> AllRetained(pushes, |old(pushes)|)))
      ensures payload != [] && |payload| <= maxHistoryPageBytes && protocolFinished && !old(decoderFinished) ==>
                && |pushes| > |old(pushes)| && LastPushed(pushes, payload)
                && HistoryRefusal(decoder(pushes), |pushes[|pushes| - 1]|) == if r.Err? then Some(r.error) else None
      ensures r.Ok? ==> Only(pushes, |old(pushes)|, true)
    {
      hide Only, Legal, SawReady, SawFinish, SawFinishBootstrap, Fed, AllRetained, LastPushed, HistoryRefusal, Finishes;
      if |payload| > maxHistoryPageBytes {
        return Err(PayloadLimitExceeded(|payload|, maxHistoryPageBytes));
      }
      if !protocolFinished {
        return Err(InvalidTransition);
      }
      if decoderFinished {
        return Err(InvalidTransition);
      }
      ghost var taken;
      r, taken := FeedHistory(payload);
      Record(DidPage(payload, taken, decoderFinished, r.Ok?));
    }

    /** The decoder called every history page retained in its answers from push `from` on. */
    predicate AllRetained(ps: seq<Bytes>, from: nat) {
      forall i | from < i <= |ps| :: decoder(ps[..i]).Some? && decoder(ps[..i]).value.kind.HistoryPage? ==> decoder(ps[..i]).value.retained
    }

    lemma NothingPushed()
      ensures AllRetained(pushes, |pushes|)
    {
    }

    lemma AllRetainedPush(ps: seq<Bytes>, remaining: Bytes, from: nat)
      requires from <= |ps|
      ensures var qs := ps + [remaining];
              AllRetained(qs, from) <==>
              AllRetained(ps, from) && (decoder(qs).Some? && decoder(qs).value.kind.HistoryPage? ==> decoder(qs).value.retained)
    {
      var qs := ps + [remaining];
      assert qs[..|qs|] == qs;
      assert forall i | from < i <= |ps| :: qs[..i] == ps[..i];
      assert forall i | from < i <= |ps| :: ps[..i] == qs[..i];
    }

    method ApplyOutput(payload: Bytes) returns (r: Result<(), EngineError>)
      requires Valid()
      modifies `written, `trace
      ensures Valid()
      ensures r.Ok? <==> terminal.Some?
      ensures r.Ok? ==> written == old(written) + [(terminal.value, payload)] && trace == old(trace) + [DidOutput(payload)]
      ensures r.Err? ==> r == Err(InvalidTransition) && written == old(written) && trace == old(trace)
    {
      hide Legal, SawReady, SawFinish, SawFinishBootstrap, Fed;
      if terminal.None? {
        return Err(InvalidTransition);
      }
      written := written + [(terminal.value, payload)];
      Record(DidOutput(payload));
      return Ok(());
    }
  }

  // ---------------------------------------------------------------- runs

  /** The calls that were answered with success. */
  function Accepted(calls: seq<Call>, oks: seq<bool>): seq<Call>
    requires |calls| == |oks|
  {
    if calls == [] then []
    else
      var n := |calls| - 1;
      Accepted(calls[..n], oks[..n]) + if oks[n] then [calls[n]] else []
  }

  method Perform(r: NativeReplica, c: Call) returns (ok: bool)
    requires r.Valid()
    modifies r
    ensures r.Valid()
    ensures Successes(r.trace) == Successes(old(r.trace)) + if ok then [c] else []
  {
    hide Legal, SawReady, SawFinish, SawFinishBootstrap, Fed;
    hide NativeReplica.Only, NativeReplica.LastPushed, NativeReplica.HandsOver, NativeReplica.SaysReady, NativeReplica.Finishes, NativeReplica.AllRetained;
    hide NativeReplica.BootstrapRefusal, NativeReplica.HistoryRefusal, Successes;
    ghost var trace := r.trace;
    match c {
      case Chunk(p) => var x := r.ApplyBootstrapChunk(p); ok := x.Ok?;
      case EndBootstrap => var x := r.FinishBootstrap(); ok := x.Ok?;
      case Page(p) => var x := r.ApplyHistoryPage(p); ok := x.Ok?;
      case Output(p) => var x := r.ApplyOutput(p); ok := x.Ok?;
    }
    SuccessesGrow(trace, r.trace);
  }

  lemma SuccessesGrow(trace: seq<Done>, trace': seq<Done>)
    requires trace' == trace || (|trace'| == |trace| + 1 && trace'[..|trace|] == trace)
    ensures Successes(trace') == Successes(trace) + if trace' == trace then [] else Success(trace'[|trace|])
  {
  }

  /** Any calls against any decoder, in any order, refused ones included: every call got past the
      adapter at a legal point only, the decoder was fed the payloads in order, each from its start
      on and those of successful calls whole, and the calls that succeeded are the recorded ones. */
  method Drive(r: NativeReplica, calls: seq<Call>) returns (oks: seq<bool>)
    requires r.Valid() && r.trace == []
    modifies r
    ensures r.Valid() && Legal(r.trace) && r.fed == Fed(r.trace)
    ensures |oks| == |calls| && Successes(r.trace) == Accepted(calls, oks)
  {
    oks := [];
    for n := 0 to |calls|
      invariant r.Valid() && |oks| == n
      invariant Successes(r.trace) == Accepted(calls[..n], oks)
    {
      var ok := Perform(r, calls[n]);
      assert calls[..n + 1][..n] == calls[..n] && (oks + [ok])[..n] == oks;
      oks := oks + [ok];
    }
    assert calls[..|calls|] == calls;
  }

  /** A decoder that consumes a byte at a time and answers each with READY and a new terminal. */
  function AlwaysReady(pushes: seq<Bytes>): Option<DecodeEvent> {
    Some(DecodeEvent(1, Ready, Some(|pushes|), true))
  }

  lemma ByteAnswered(replica: NativeReplica, ps: seq<Bytes>, payload: Bytes)
    requires |payload| == 1 && replica.LastPushed(ps, payload) && replica.decoder(ps) == AlwaysReady(ps)
    ensures replica.SaysReady(ps) && replica.HandsOver(ps) && replica.decoder(ps).value.terminal == Some(|ps|)
    ensures replica.BootstrapRefusal(replica.decoder(ps), |ps[|ps| - 1]|, None) == None
  {
  }

  method FeedByte(replica: NativeReplica) returns (r: Result<BootstrapProgress, EngineError>)
    requires replica.Valid() && replica.decoder == AlwaysReady && replica.maxChunkBytes == 1
    requires !replica.protocolFinished && !replica.decoderFinished && replica.budget.None?
    modifies replica`pushes, replica`fed, replica`terminal, replica`trace
    ensures replica.Valid() && r == Ok(Readied)
    ensures replica.terminal == Some(|replica.pushes|) && |replica.pushes| > |old(replica.pushes)|
  {
    hide Legal, SawReady, SawFinish, SawFinishBootstrap, Fed;
    hide NativeReplica.Only, NativeReplica.LastPushed, NativeReplica.HandsOver, NativeReplica.SaysReady, NativeReplica.BootstrapRefusal, AlwaysReady;
    var payload: Bytes := [0];
    r := replica.ApplyBootstrapChunk(payload);
    ByteAnswered(replica, replica.pushes, payload);
  }

  /** READY does not end the bootstrap: the next chunk is accepted all the same, and a terminal that
      comes with it replaces the first. */
  method ReadyTwice() returns (first: Option<Terminal>, second: Option<Terminal>, r: Result<BootstrapProgress, EngineError>)
    ensures r == Ok(Readied)
    ensures first.Some? && second.Some? && first != second
  {
    var replica := new NativeReplica(AlwaysReady, (t, bytes, rows) => true, 1, 1);
    var _ := FeedByte(replica);
    first := replica.terminal;
    r := FeedByte(replica);
    second := replica.terminal;
  }
}
