/** The `window_contexts` snapshot record: for each window, the texts it is showing. */
module WindowContexts {
  import opened Prelude
  import opened Utf8

  const VERSION := 1
  const MAX_WINDOWS := 5
  const TEXT_LIMIT := 64
  const FLAGS_LIMIT := 15
  const CONNECTION_LIMIT := 4

  datatype Context = Context(
    window: Byte,
    empty: bool,
    picked: bool,
    opening: bool,
    unavailable: bool,
    connection: Byte,
    session: Bytes,
    host: Bytes)

  // ---------------------------------------------------------------- the format

  function Bit(b: bool, value: Byte): Byte { if b then value else 0 }

  function Flags(c: Context): Byte {
    Bit(c.empty, 1) + Bit(c.picked, 2) + Bit(c.opening, 4) + Bit(c.unavailable, 8)
  }

  ghost predicate ValidText(t: Bytes) {
    |t| <= TEXT_LIMIT && IsText(t)
  }

  ghost predicate ValidContext(c: Context) {
    c.window < MAX_WINDOWS && c.connection <= CONNECTION_LIMIT && ValidText(c.session) && ValidText(c.host)
  }

  ghost predicate DistinctWindows(cs: seq<Context>) {
    forall i, j | 0 <= i < j < |cs| :: cs[i].window != cs[j].window
  }

  /** What the engine may send: at most five records, one per window, each within bounds. */
  ghost predicate ValidContexts(cs: seq<Context>) {
    && |cs| <= MAX_WINDOWS
    && (forall c | c in cs :: ValidContext(c))
    && DistinctWindows(cs)
  }

  ghost function EncodeString(t: Bytes): Bytes
    requires |t| <= TEXT_LIMIT
  {
    [|t|] + t
  }

  ghost function EncodeContext(c: Context): Bytes
    requires ValidContext(c)
  {
    [c.window, Flags(c), c.connection] + (EncodeString(c.session) + EncodeString(c.host))
  }

  ghost function Records(cs: seq<Context>): Bytes
    requires forall c | c in cs :: ValidContext(c)
  {
    if cs == [] then [] else EncodeContext(cs[0]) + Records(cs[1..])
  }

  ghost function EncodeContexts(cs: seq<Context>): Bytes
    requires ValidContexts(cs)
  {
    [VERSION, |cs|] + Records(cs)
  }

  /** The payload is the encoding of something. */
  ghost predicate IsPayload(payload: Bytes) {
    exists cs :: ValidContexts(cs) && EncodeContexts(cs) == payload
  }

  // ---------------------------------------------------------------- codes cannot be confused

  lemma StringPrefixFree(t: Bytes, u: Bytes, x: Bytes, y: Bytes)
    requires |t| <= TEXT_LIMIT && |u| <= TEXT_LIMIT
    requires EncodeString(t) + x == EncodeString(u) + y
    ensures t == u && x == y
  {
    var b := EncodeString(t) + x;
    assert b[0] == |t| && b[0] == |u|;
    assert t == b[1..1 + |t|] && u == b[1..1 + |t|];
    assert x == b[1 + |t|..] && y == b[1 + |t|..];
  }

  lemma FlagsInjective(c: Context, d: Context)
    requires Flags(c) == Flags(d)
    ensures c.empty == d.empty && c.picked == d.picked && c.opening == d.opening && c.unavailable == d.unavailable
  {
  }

  lemma ContextPrefixFree(c: Context, d: Context, x: Bytes, y: Bytes)
    requires ValidContext(c) && ValidContext(d)
    requires EncodeContext(c) + x == EncodeContext(d) + y
    ensures c == d && x == y
  {
    var b := EncodeContext(c) + x;
    ContextFits(c, b, x);
    ContextFits(d, b, y);
    FlagsInjective(c, d);
    StringPrefixFree(c.session, d.session, EncodeString(c.host) + x, EncodeString(d.host) + y);
    StringPrefixFree(c.host, d.host, x, y);
  }

  /** How a record lies at the front of the bytes. */
  lemma ContextFits(c: Context, b: Bytes, x: Bytes)
    requires ValidContext(c) && b == EncodeContext(c) + x
    ensures |b| >= 3 && b[0] == c.window && b[1] == Flags(c) && b[2] == c.connection
    ensures b[3..] == EncodeString(c.session) + (EncodeString(c.host) + x)
  {
    hide EncodeString, Flags;
    var s, h := EncodeString(c.session), EncodeString(c.host);
    assert b == [c.window, Flags(c), c.connection] + (s + (h + x));
  }

  lemma {:induction false} RecordsAppend(cs: seq<Context>, c: Context)
    requires (forall d | d in cs :: ValidContext(d)) && ValidContext(c)
    ensures Records(cs + [c]) == Records(cs) + EncodeContext(c)
  {
    hide EncodeContext, ValidContext;
    if cs == [] {
      assert cs + [c] == [c] && [c][1..] == [];
    } else {
      RecordsAppend(cs[1..], c);
      assert (cs + [c])[1..] == cs[1..] + [c];
      var p, q, r := EncodeContext(cs[0]), Records(cs[1..]), EncodeContext(c);
      assert p + (q + r) == (p + q) + r;
    }
  }

  // ---------------------------------------------------------------- the parser

  /** A length-prefixed text at `at`, or nothing if no valid one starts there. */
  method TextAt(b: Bytes, at: nat) returns (r: Option<Bytes>)
    ensures r.Some? ==> ValidText(r.value) && at + 1 + |r.value| <= |b| && EncodeString(r.value) == b[at..at + 1 + |r.value|]
    ensures r.None? ==> at > |b| || forall t | ValidText(t) :: !(EncodeString(t) <= b[at..])
  {
    if at >= |b| {
      return None;
    }
    var length := b[at];
    if length > TEXT_LIMIT || at + 1 + length > |b| {
      assert forall t | ValidText(t) && EncodeString(t) <= b[at..] :: b[at..][0] == |t|;
      return None;
    }
    var text := b[at + 1..at + 1 + length];
    forall t | ValidText(t) && EncodeString(t) <= b[at..]
      ensures t == text
    {
      StringFits(t, b[at..]);
    }
    var ok := ValidUtf8(text);
    if !ok {
      return None;
    }
    return Some(text);
  }

  lemma StringFits(t: Bytes, b: Bytes)
    requires |t| <= TEXT_LIMIT && EncodeString(t) <= b
    ensures |b| >= 1 + |t| && b[0] == |t| && b[1..1 + |t|] == t
  {
    assert EncodeString(t) == b[..1 + |t|];
    assert t == EncodeString(t)[1..];
  }

  datatype Record = Record(context: Context, end: nat)

  /** The next record at `at`, or nothing if no valid one starts there. */
  method RecordAt(b: Bytes, at: nat) returns (r: Option<Record>)
    requires at <= |b|
    ensures r.Some? ==> ValidContext(r.value.context) && at < r.value.end <= |b| && EncodeContext(r.value.context) == b[at..r.value.end]
    ensures r.None? ==> forall c | ValidContext(c) :: !(EncodeContext(c) <= b[at..])
  {
    hide IsText, EncodeString;
    if at + 3 > |b| {
      return None;
    }
    var window, flags, connection := b[at], b[at + 1], b[at + 2];
    forall c | ValidContext(c) && EncodeContext(c) <= b[at..]
      ensures window == c.window && flags == Flags(c) && connection == c.connection
      ensures EncodeString(c.session) <= b[at + 3..]
    {
      SessionFits(b, at, c);
    }
    if !(window < MAX_WINDOWS) || !(flags <= FLAGS_LIMIT) || !(connection <= CONNECTION_LIMIT) {
      return None;
    }
    var session := TextAt(b, at + 3);
    if session.None? {
      return None;
    }
    var mid := at + 4 + |session.value|;
    forall c | ValidContext(c) && EncodeContext(c) <= b[at..]
      ensures EncodeString(c.host) <= b[mid..]
    {
      HostFits(b, at, session.value, c);
    }
    var host := TextAt(b, mid);
    if host.None? {
      return None;
    }
    var c := Context(window, flags % 2 != 0, flags / 2 % 2 != 0, flags / 4 % 2 != 0, flags / 8 % 2 != 0,
                     connection, session.value, host.value);
    FlagsRead(flags, c);
    var end := at + 5 + |session.value| + |host.value|;
    assert b[at..end] == [window, flags, connection] + (b[at + 3..mid] + b[mid..end]);
    return Some(Record(c, end));
  }

  lemma FlagsRead(flags: Byte, c: Context)
    requires flags <= FLAGS_LIMIT
    requires c.empty == (flags % 2 != 0) && c.picked == (flags / 2 % 2 != 0)
    requires c.opening == (flags / 4 % 2 != 0) && c.unavailable == (flags / 8 % 2 != 0)
    ensures Flags(c) == flags
  {
  }

  lemma SessionFits(b: Bytes, at: nat, c: Context)
    requires at + 3 <= |b| && ValidContext(c) && EncodeContext(c) <= b[at..]
    ensures b[at] == c.window && b[at + 1] == Flags(c) && b[at + 2] == c.connection
    ensures EncodeString(c.session) <= b[at + 3..]
  {
    hide EncodeString, Flags, EncodeContext;
    var x := b[at..][|EncodeContext(c)|..];
    ContextFits(c, b[at..], x);
    assert b[at + 3..] == b[at..][3..];
  }

  lemma HostFits(b: Bytes, at: nat, session: Bytes, c: Context)
    requires ValidText(session) && at + 4 + |session| <= |b|
    requires ValidContext(c) && EncodeContext(c) <= b[at..]
    requires EncodeString(session) == b[at + 3..at + 4 + |session|]
    ensures EncodeString(c.host) <= b[at + 4 + |session|..]
  {
    hide EncodeString, Flags, EncodeContext;
    var mid := at + 4 + |session|;
    var x := b[at..][|EncodeContext(c)|..];
    ContextFits(c, b[at..], x);
    assert b[at + 3..] == b[at..][3..];
    assert b[at + 3..] == b[at + 3..mid] + b[mid..];
    StringPrefixFree(c.session, session, EncodeString(c.host) + x, b[mid..]);
  }

  method HasWindow(records: seq<Context>, window: Byte) returns (found: bool)
    ensures found <==> exists i :: 0 <= i < |records| && records[i].window == window
  {
    for i := 0 to |records|
      invariant forall k | 0 <= k < i :: records[k].window != window
    {
      if records[i].window == window {
        return true;
      }
    }
    return false;
  }

  /** `cs` is a reading of the payload of which `records`, up to `at`, is the beginning. */
  ghost predicate Reads(cs: seq<Context>, payload: Bytes, at: nat, records: seq<Context>)
    requires ValidContexts(cs) && at <= |payload|
  {
    records <= cs && Records(cs[|records|..]) == payload[at..]
  }

  ghost predicate AllRead(payload: Bytes, count: nat, at: nat, records: seq<Context>)
    requires at <= |payload|
  {
    forall cs | ValidContexts(cs) && EncodeContexts(cs) == payload ::
      |cs| == count && Reads(cs, payload, at, records)
  }

  lemma ReadsStep(cs: seq<Context>, payload: Bytes, at: nat, records: seq<Context>, c: Context, end: nat)
    requires ValidContexts(cs) && at <= end <= |payload| && |records| < |cs|
    requires Reads(cs, payload, at, records)
    requires ValidContext(c) && EncodeContext(c) == payload[at..end]
    ensures Reads(cs, payload, end, records + [c])
  {
    hide ValidContext, EncodeContext;
    var rest := cs[|records|..];
    assert rest[0] == cs[|records|] && rest[1..] == cs[|records| + 1..];
    assert payload[at..] == payload[at..end] + payload[end..];
    assert rest[0] in cs;
    ContextPrefixFree(rest[0], c, Records(rest[1..]), payload[end..]);
  }

  lemma AllReadStep(payload: Bytes, count: nat, at: nat, records: seq<Context>, c: Context, end: nat)
    requires at <= end <= |payload| && |records| < count
    requires AllRead(payload, count, at, records)
    requires ValidContext(c) && EncodeContext(c) == payload[at..end]
    ensures AllRead(payload, count, end, records + [c])
  {
    hide ValidContext, EncodeContext, Reads;
    forall cs | ValidContexts(cs) && EncodeContexts(cs) == payload
      ensures |cs| == count && Reads(cs, payload, end, records + [c])
    {
      ReadsStep(cs, payload, at, records, c, end);
    }
  }

  /** Any reading that goes on does so with a record that starts here. */
  lemma AllReadNext(payload: Bytes, count: nat, at: nat, records: seq<Context>)
    requires at <= |payload| && |records| < count
    requires AllRead(payload, count, at, records)
    ensures IsPayload(payload) ==> exists c :: ValidContext(c) && EncodeContext(c) <= payload[at..]
  {
    hide ValidContext, EncodeContext;
    if cs :| ValidContexts(cs) && EncodeContexts(cs) == payload {
      var rest := cs[|records|..];
      assert cs[|records|] in cs && rest[0] == cs[|records|];
      assert Records(rest) == EncodeContext(rest[0]) + Records(rest[1..]);
    }
  }

  /** What any reading begins with has one record per window. */
  lemma AllReadDistinct(payload: Bytes, count: nat, at: nat, records: seq<Context>)
    requires at <= |payload| && AllRead(payload, count, at, records)
    ensures IsPayload(payload) ==> DistinctWindows(records)
  {
  }

  /** A reading with no record to go has no bytes to go. */
  lemma AllReadEnd(payload: Bytes, at: nat, records: seq<Context>)
    requires at <= |payload| && AllRead(payload, |records|, at, records)
    ensures IsPayload(payload) ==> at == |payload|
  {
    if cs :| ValidContexts(cs) && EncodeContexts(cs) == payload {
      assert cs[|records|..] == [];
    }
  }

  lemma HeaderRead(payload: Bytes)
    ensures IsPayload(payload) ==> |payload| >= 2 && payload[0] == VERSION && payload[1] <= MAX_WINDOWS
    ensures |payload| >= 2 ==> AllRead(payload, payload[1], 2, []) && Records([]) == payload[2..2]
    ensures DistinctWindows([])
  {
    if |payload| >= 2 {
      forall cs | ValidContexts(cs) && EncodeContexts(cs) == payload
        ensures |cs| == payload[1] && Reads(cs, payload, 2, [])
      {
        assert EncodeContexts(cs)[1] == |cs|;
        assert cs[0..] == cs && payload[2..] == Records(cs);
      }
    }
  }

  lemma DistinctAppend(records: seq<Context>, c: Context)
    requires DistinctWindows(records)
    ensures DistinctWindows(records + [c]) <==> !exists i :: 0 <= i < |records| && records[i].window == c.window
  {
    if i :| 0 <= i < |records| && records[i].window == c.window {
      assert (records + [c])[i].window == (records + [c])[|records|].window;
    }
  }

  /** The parser is the inverse of the encoding, both ways: what it returns encodes to exactly
      this payload, and a payload it refuses encodes nothing. */
  method ParseContexts(payload: Bytes) returns (r: Option<seq<Context>>)
    ensures r.Some? ==> ValidContexts(r.value) && EncodeContexts(r.value) == payload
    ensures r.None? ==> !IsPayload(payload)
  {
    hide ValidContext, EncodeContext, Records, AllRead, IsPayload, DistinctWindows;
    HeaderRead(payload);
    if |payload| < 2 || payload[0] != VERSION {
      return None;
    }
    var count := payload[1];
    if !(count <= MAX_WINDOWS) {
      return None;
    }
    var records: seq<Context> := [];
    var at := 2;
    for index := 0 to count
      invariant |records| == index && 2 <= at <= |payload|
      invariant forall c | c in records :: ValidContext(c)
      invariant DistinctWindows(records)
      invariant payload[2..at] == Records(records)
      invariant AllRead(payload, count, at, records)
    {
      AllReadNext(payload, count, at, records);
      var record := RecordAt(payload, at);
      if record.None? {
        return None;
      }
      var c, end := record.value.context, record.value.end;
      AllReadStep(payload, count, at, records, c, end);
      AllReadDistinct(payload, count, end, records + [c]);
      DistinctAppend(records, c);
      var repeated := HasWindow(records, c.window);
      if repeated {
        return None;
      }
      RecordsAppend(records, c);
      assert payload[2..end] == payload[2..at] + payload[at..end];
      records := records + [c];
      at := end;
    }
    AllReadEnd(payload, at, records);
    if at != |payload| {
      return None;
    }
    assert payload == [VERSION, count] + payload[2..at];
    return Some(records);
  }

  /** Different records have different payloads, so parsing an encoding returns what was encoded. */
  lemma EncodeInjective(cs: seq<Context>, ds: seq<Context>)
    requires ValidContexts(cs) && ValidContexts(ds)
    requires EncodeContexts(cs) == EncodeContexts(ds)
    ensures cs == ds
  {
    assert EncodeContexts(cs)[2..] == Records(cs) && EncodeContexts(ds)[2..] == Records(ds);
    assert EncodeContexts(cs)[1] == |cs| && EncodeContexts(ds)[1] == |ds|;
    RecordsInjective(cs, ds);
  }

  lemma {:induction false} RecordsInjective(cs: seq<Context>, ds: seq<Context>)
    requires (forall c | c in cs :: ValidContext(c)) && (forall d | d in ds :: ValidContext(d))
    requires |cs| == |ds| && Records(cs) == Records(ds)
    ensures cs == ds
  {
    hide ValidContext, EncodeContext;
    if cs != [] {
      ContextPrefixFree(cs[0], ds[0], Records(cs[1..]), Records(ds[1..]));
      RecordsInjective(cs[1..], ds[1..]);
    }
  }
}
