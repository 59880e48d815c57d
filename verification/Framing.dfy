/** Cutting a stream into frames, each preceded by its length as a big-endian word, when the
    stream arrives in chunks that end anywhere. */
module Framing {
  import opened Prelude

  const LENGTH_PREFIX := 4
  const MAX_FRAME_LEN := 16 * 1024 * 1024

  function BodyLength(b: Bytes): U32
    requires |b| >= LENGTH_PREFIX
  {
    b[0] as int * 0x100_0000 + b[1] as int * 0x1_0000 + b[2] as int * 0x100 + b[3]
  }

  /** A complete header whose length no frame may have. */
  predicate BadHeader(b: Bytes) {
    |b| >= LENGTH_PREFIX && !(1 <= BodyLength(b) <= MAX_FRAME_LEN)
  }

  /** Exactly one encoded frame, prefix included. */
  predicate IsFrame(b: Bytes) {
    |b| >= LENGTH_PREFIX && 1 <= BodyLength(b) <= MAX_FRAME_LEN && |b| == LENGTH_PREFIX + BodyLength(b)
  }

  /** The bytes begin with at least one whole frame. */
  predicate StartsWithFrame(b: Bytes) {
    |b| >= LENGTH_PREFIX && 1 <= BodyLength(b) <= MAX_FRAME_LEN && |b| >= LENGTH_PREFIX + BodyLength(b)
  }

  function Flatten(parts: seq<Bytes>): Bytes {
    if parts == [] then [] else parts[0] + Flatten(parts[1..])
  }

  lemma {:induction false} FlattenConcat(parts: seq<Bytes>, more: seq<Bytes>)
    ensures Flatten(parts + more) == Flatten(parts) + Flatten(more)
  {
    if parts == [] {
      assert parts + more == more;
    } else {
      var p, q, r := parts[0], Flatten(parts[1..]), Flatten(more);
      FlattenConcat(parts[1..], more);
      assert (parts + more)[1..] == parts[1..] + more;
      assert (parts + more)[0] == p;
      Associate(p, q, r);
    }
  }

  lemma FlattenAppend(parts: seq<Bytes>, part: Bytes)
    ensures Flatten(parts + [part]) == Flatten(parts) + part
  {
    FlattenConcat(parts, [part]);
    assert [part][1..] == [];
  }

  // ---------------------------------------------------------------- what a stream means

  /** The frames of a stream, the bytes behind the last whole one, and whether a length
      came that no frame may have. */
  datatype Parsed = Parsed(frames: seq<Bytes>, rest: Bytes, poisoned: bool)

  /** The stream is these frames followed by something that is not yet, or never, a frame. */
  ghost predicate Splits(stream: Bytes, frames: seq<Bytes>, tail: Bytes) {
    && stream == Flatten(frames) + tail
    && (forall f | f in frames :: IsFrame(f))
    && !StartsWithFrame(tail)
  }

  ghost function Parse(stream: Bytes): (r: Parsed)
    decreases |stream|
  {
    if StartsWithFrame(stream) then
      var n := LENGTH_PREFIX + BodyLength(stream);
      var more := Parse(stream[n..]);
      more.(frames := [stream[..n]] + more.frames)
    else if BadHeader(stream) then Parsed([], [], true)
    else Parsed([], stream, false)
  }

  /** A stream splits in one way only, and that is what parsing finds: neither frames nor
      leftover nor the poison flag depend on anything but the bytes. */
  lemma {:induction false} ParseIsTheSplit(stream: Bytes, frames: seq<Bytes>, tail: Bytes)
    requires Splits(stream, frames, tail)
    ensures Parse(stream) == Parsed(frames, if BadHeader(tail) then [] else tail, BadHeader(tail))
    decreases |frames|
  {
    if frames == [] {
      assert stream == tail;
    } else {
      var n := |frames[0]|;
      assert IsFrame(frames[0]);
      assert stream == frames[0] + (Flatten(frames[1..]) + tail);
      assert stream[..n] == frames[0] && stream[n..] == Flatten(frames[1..]) + tail;
      assert BodyLength(stream) == BodyLength(frames[0]);
      ParseIsTheSplit(stream[n..], frames[1..], tail);
      assert frames == [frames[0]] + frames[1..];
    }
  }

  /** Every stream does split. */
  lemma {:induction false} StreamSplits(stream: Bytes) returns (frames: seq<Bytes>, tail: Bytes)
    ensures Splits(stream, frames, tail)
    decreases |stream|
  {
    if StartsWithFrame(stream) {
      var n := LENGTH_PREFIX + BodyLength(stream);
      var more;
      more, tail := StreamSplits(stream[n..]);
      frames := [stream[..n]] + more;
      assert stream == stream[..n] + stream[n..];
      assert frames[1..] == more;
    } else {
      frames, tail := [], stream;
    }
  }

  // ---------------------------------------------------------------- encoding

  function Header(n: U32): Bytes {
    [n / 0x100_0000, n / 0x1_0000 % 0x100, n / 0x100 % 0x100, n % 0x100]
  }

  function EncodeFrame(body: Bytes): Bytes
    requires 1 <= |body| <= MAX_FRAME_LEN
  {
    Header(|body|) + body
  }

  ghost function EncodeAll(bodies: seq<Bytes>): seq<Bytes>
    requires forall b | b in bodies :: 1 <= |b| <= MAX_FRAME_LEN
  {
    seq(|bodies|, i requires 0 <= i < |bodies| => EncodeFrame(bodies[i]))
  }

  /** Parsing what was encoded returns exactly the encoded frames, with nothing left over. */
  lemma EncodeThenParse(bodies: seq<Bytes>)
    requires forall b | b in bodies :: 1 <= |b| <= MAX_FRAME_LEN
    ensures Parse(Flatten(EncodeAll(bodies))) == Parsed(EncodeAll(bodies), [], false)
    ensures forall i | 0 <= i < |bodies| :: EncodeAll(bodies)[i][LENGTH_PREFIX..] == bodies[i]
  {
    var frames := EncodeAll(bodies);
    forall i | 0 <= i < |bodies|
      ensures IsFrame(frames[i]) && frames[i][LENGTH_PREFIX..] == bodies[i]
    {
      HeaderRoundTrip(|bodies[i]|, bodies[i]);
    }
    assert Flatten(frames) + [] == Flatten(frames);
    ParseIsTheSplit(Flatten(frames), frames, []);
  }

  /** The most significant byte comes first, and 16 MiB is the longest body. */
  lemma HeaderLayout(body: Bytes)
    ensures Header(0x0102_0304) == [1, 2, 3, 4] && BodyLength([1, 2, 3, 4] + body) == 0x0102_0304
    ensures !BadHeader([1, 0, 0, 0] + body) && BadHeader([1, 0, 0, 1] + body) && BadHeader([0, 0, 0, 0] + body)
  {
    HeaderRoundTrip(0x0102_0304, body);
  }

  lemma HeaderRoundTrip(n: U32, body: Bytes)
    ensures BodyLength(Header(n) + body) == n
  {
    var b := Header(n) + body;
    assert b[0] == n / 0x100_0000 && b[1] == n / 0x1_0000 % 0x100 && b[2] == n / 0x100 % 0x100 && b[3] == n % 0x100;
    assert n / 0x1_0000 == n / 0x100 / 0x100 && n / 0x100_0000 == n / 0x1_0000 / 0x100;
  }

  // ---------------------------------------------------------------- the buffer

  class FrameBuffer {
    var buf: Bytes
    var poisoned: bool
    /** Every byte handed to `Push`, and every frame `NextFrame` has returned. */
    ghost var pushed: Bytes
    ghost var emitted: seq<Bytes>

    ghost predicate Valid()
      reads this
    {
      && (forall f | f in emitted :: IsFrame(f))
      && (!poisoned ==> pushed == Flatten(emitted) + buf)
      && (poisoned ==> buf == [] && exists tail :: pushed == Flatten(emitted) + tail && BadHeader(tail))
    }

    constructor ()
      ensures Valid() && pushed == [] && emitted == [] && !poisoned
    {
      buf, poisoned := [], false;
      pushed, emitted := [], [];
    }

    method Push(chunk: Bytes)
      requires Valid()
      modifies this
      ensures Valid()
      ensures pushed == old(pushed) + chunk && emitted == old(emitted) && poisoned == old(poisoned)
      ensures poisoned ==> buf == old(buf)
    {
      if !poisoned {
        buf := buf + chunk;
      } else {
        ghost var tail :| pushed == Flatten(emitted) + tail && BadHeader(tail);
        assert pushed + chunk == Flatten(emitted) + (tail + chunk);
        assert BadHeader(tail + chunk);
      }
      pushed := pushed + chunk;
    }

    /** A frame, or nothing; nothing means that all that can be known of the bytes so far is
        known, however they were cut into chunks and whenever they were drained. */
    method NextFrame() returns (r: Option<Bytes>)
      requires Valid()
      modifies this
      ensures Valid()
      ensures pushed == old(pushed)
      ensures r.Some? ==> IsFrame(r.value) && emitted == old(emitted) + [r.value] && |buf| < |old(buf)| && !poisoned
      ensures r.None? ==> emitted == old(emitted) && Parsed(emitted, buf, poisoned) == Parse(pushed)
      ensures old(poisoned) ==> r.None? && poisoned
    {
      if poisoned || |buf| < LENGTH_PREFIX {
        Settled();
        return None;
      }
      var bodyLen := BodyLength(buf);
      if !(1 <= bodyLen <= MAX_FRAME_LEN) {
        assert BadHeader(buf) && pushed == Flatten(emitted) + buf;
        poisoned := true;
        buf := [];
        Settled();
        return None;
      }
      var total := LENGTH_PREFIX + bodyLen;
      if |buf| < total {
        Settled();
        return None;
      }
      var frame, rest := buf[..total], buf[total..];
      FlattenAppend(emitted, frame);
      assert buf == frame + rest;
      buf := rest;
      emitted := emitted + [frame];
      return Some(frame);
    }

    lemma Settled()
      requires Valid()
      requires poisoned || !(StartsWithFrame(buf) || BadHeader(buf))
      ensures Parsed(emitted, buf, poisoned) == Parse(pushed)
    {
      if poisoned {
        var tail :| pushed == Flatten(emitted) + tail && BadHeader(tail);
        ParseIsTheSplit(pushed, emitted, tail);
      } else {
        ParseIsTheSplit(pushed, emitted, buf);
      }
    }

    /** Frames come out in stream order, whether or not the buffer is drained. */
    lemma EmittedLeads()
      requires Valid()
      ensures emitted <= Parse(pushed).frames
    {
      var rest, all := buf, pushed;
      if poisoned {
        var tail :| pushed == Flatten(emitted) + tail && BadHeader(tail);
        rest := tail;
      }
      var more, tail := StreamSplits(rest);
      FlattenConcat(emitted, more);
      assert all == Flatten(emitted + more) + tail;
      ParseIsTheSplit(all, emitted + more, tail);
    }

    /** What has been pushed and not yet handed out. */
    function PendingBytes(): nat
      reads this
    {
      |buf|
    }
  }

  /** Reassembly is independent of chunking: any chunks, drained by any number of calls after
      each, give what one push of the whole stream gives. */
  method Reassemble(chunks: seq<Bytes>, pulls: seq<nat>) returns (r: Parsed)
    requires |pulls| == |chunks|
    ensures r == Parse(Flatten(chunks))
    ensures !r.poisoned ==> Flatten(r.frames) + r.rest == Flatten(chunks)
  {
    var fb := new FrameBuffer();
    var frames: seq<Bytes> := [];
    for i := 0 to |chunks|
      invariant fresh(fb) && fb.Valid()
      invariant fb.pushed == Flatten(chunks[..i]) && frames == fb.emitted
    {
      fb.Push(chunks[i]);
      FlattenAppend(chunks[..i], chunks[i]);
      assert chunks[..i + 1] == chunks[..i] + [chunks[i]];
      for k := 0 to pulls[i]
        invariant fresh(fb) && fb.Valid()
        invariant fb.pushed == Flatten(chunks[..i + 1]) && frames == fb.emitted
      {
        var f := fb.NextFrame();
        if f.Some? {
          frames := frames + [f.value];
        }
      }
    }
    assert chunks[..|chunks|] == chunks;
    var f := fb.NextFrame();
    while f.Some?
      invariant fresh(fb) && fb.Valid() && fb.pushed == Flatten(chunks)
      invariant fb.emitted == frames + if f.Some? then [f.value] else []
      invariant f.None? ==> Parsed(frames, fb.buf, fb.poisoned) == Parse(fb.pushed)
      decreases |fb.buf|, f.Some?
    {
      frames := frames + [f.value];
      f := fb.NextFrame();
    }
    assert frames + [] == frames;
    r := Parsed(frames, fb.buf, fb.poisoned);
  }

  // ---------------------------------------------------------------- the read pump

  datatype Read = Chunk(bytes: Bytes) | Done | Failed | NoValue

  /** Why the pump returned; `Starved` means that the reads given to it ran out first. */
  datatype Exit = CleanEof | PartialEof | ReadError | MissingValue | Stopped | Poisoned | Starved

  /** The bytes of the leading reads, as long as they are chunks. */
  function Received(input: seq<Read>): Bytes {
    if input != [] && input[0].Chunk? then input[0].bytes + Received(input[1..]) else []
  }

  predicate Chunks(input: seq<Read>) {
    forall r | r in input :: r.Chunk?
  }

  lemma {:induction false} ReceivedAppend(input: seq<Read>, chunk: Bytes)
    requires Chunks(input)
    ensures Received(input + [Chunk(chunk)]) == Received(input) + chunk
  {
    if input == [] {
      assert (input + [Chunk(chunk)])[1..] == [];
    } else {
      ReceivedAppend(input[1..], chunk);
      assert (input + [Chunk(chunk)])[1..] == input[1..] + [Chunk(chunk)];
    }
  }

  /** Every prefix of the handled frames, up to the first `n`, was met with "continue". */
  ghost predicate AllWelcome(handled: seq<Bytes>, n: nat, goOn: seq<Bytes> -> bool)
    requires n <= |handled|
  {
    forall k | 0 < k <= n :: goOn(handled[..k])
  }

  lemma NothingYet(goOn: seq<Bytes> -> bool)
    ensures AllWelcome([], 0, goOn) && Received([]) == [] && Parse([]) == Parsed([], [], false)
  {
  }

  /** The pump's inner loop: hand over whole frames until none is left or the session stops. */
  method HandleFrames(fb: FrameBuffer, goOn: seq<Bytes> -> bool, before: seq<Bytes>)
    returns (handled: seq<Bytes>, stopped: bool)
    requires fb.Valid() && fb.emitted == before && AllWelcome(before, |before|, goOn)
    modifies fb
    ensures fb.Valid() && fb.emitted == handled && fb.pushed == old(fb.pushed)
    ensures !stopped ==> AllWelcome(handled, |handled|, goOn) && Parsed(handled, fb.buf, fb.poisoned) == Parse(fb.pushed)
    ensures stopped ==> handled != [] && AllWelcome(handled, |handled| - 1, goOn) && !goOn(handled)
  {
    hide Parse, IsFrame;
    handled := before;
    var framed := fb.NextFrame();
    while framed.Some?
      invariant fb.Valid() && fb.pushed == old(fb.pushed)
      invariant fb.emitted == handled + if framed.Some? then [framed.value] else []
      invariant framed.None? ==> Parsed(handled, fb.buf, fb.poisoned) == Parse(fb.pushed)
      invariant AllWelcome(handled, |handled|, goOn)
      decreases |fb.buf|, framed.Some?
    {
      var earlier := handled;
      handled := handled + [framed.value];
      assert forall k | 0 < k <= |earlier| :: handled[..k] == earlier[..k];
      if !goOn(handled) {
        return handled, true;
      }
      assert handled[..|handled|] == handled;
      framed := fb.NextFrame();
    }
    assert handled + [] == handled;
    stopped := false;
  }

  /** The WebTransport read pump. `goOn` is the session: it is shown the frames handled so far
      and says whether to continue. `n` reads were chunks that the pump took in.

      The frames handed over are always the leading frames of the received stream, all of them
      unless the session stopped; a stream that ends is called clean exactly when it is made of
      whole frames only. */
  method Pump(input: seq<Read>, goOn: seq<Bytes> -> bool)
    returns (handled: seq<Bytes>, exit: Exit, n: nat)
    ensures n <= |input| && Chunks(input[..n])
    ensures handled <= Parse(Received(input[..n])).frames
    ensures !exit.Stopped? ==> handled == Parse(Received(input[..n])).frames && AllWelcome(handled, |handled|, goOn)
    ensures exit.Stopped? ==> handled != [] && AllWelcome(handled, |handled| - 1, goOn) && !goOn(handled)
    ensures !exit.Stopped? ==> (exit.Poisoned? <==> Parse(Received(input[..n])).poisoned)
    ensures exit.CleanEof? ==> n < |input| && input[n].Done? && Flatten(handled) == Received(input[..n])
    ensures exit.PartialEof? ==>
              && n < |input| && input[n].Done?
              && Flatten(handled) < Received(input[..n])
    ensures exit.ReadError? ==> n < |input| && input[n].Failed?
    ensures exit.MissingValue? ==> n < |input| && input[n].NoValue?
    ensures exit.Starved? ==> n == |input|
  {
    hide IsFrame, BadHeader, StartsWithFrame, AllWelcome, Parse;
    NothingYet(goOn);
    var fb := new FrameBuffer();
    handled, n := [], 0;
    while n < |input|
      invariant fresh(fb) && fb.Valid() && !fb.poisoned
      invariant n <= |input| && Chunks(input[..n])
      invariant fb.pushed == Received(input[..n]) && handled == fb.emitted
      invariant Parsed(handled, fb.buf, false) == Parse(Received(input[..n]))
      invariant AllWelcome(handled, |handled|, goOn)
    {
      match input[n] {
        case Failed => return handled, ReadError, n;
        case NoValue => return handled, MissingValue, n;
        case Done =>
          exit := if fb.PendingBytes() == 0 then CleanEof else PartialEof;
          assert fb.buf == [] ==> Flatten(handled) + fb.buf == Flatten(handled);
          return handled, exit, n;
        case Chunk(bytes) =>
          ReceivedAppend(input[..n], bytes);
          assert input[..n + 1] == input[..n] + [Chunk(bytes)];
          n := n + 1;
          fb.Push(bytes);
          var stopped;
          handled, stopped := HandleFrames(fb, goOn, handled);
          if stopped {
            fb.EmittedLeads();
            return handled, Stopped, n;
          }
          if fb.poisoned {
            return handled, Poisoned, n;
          }
      }
    }
    exit := Starved;
  }
}
