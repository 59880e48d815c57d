/** The strict UTF-8 validator of the cockpit wire protocol, against sections 3 and 4 of RFC 3629. */
module Utf8 {
  import opened Prelude

  // ---------------------------------------------------------------- the standard

  /** A Unicode scalar value: any code point but a surrogate. */
  type Scalar = v: int | 0 <= v < 0xD800 || 0xE000 <= v <= 0x10_FFFF

  /** Section 3 of RFC 3629. */
  function Encode(v: Scalar): Bytes {
    if v < 0x80 then [v]
    else if v < 0x800 then [0xC0 + v / 0x40, 0x80 + v % 0x40]
    else if v < 0x1_0000 then [0xE0 + v / 0x1000, 0x80 + v / 0x40 % 0x40, 0x80 + v % 0x40]
    else [0xF0 + v / 0x4_0000, 0x80 + v / 0x1000 % 0x40, 0x80 + v / 0x40 % 0x40, 0x80 + v % 0x40]
  }

  function EncodeText(text: seq<Scalar>): Bytes {
    if text == [] then [] else Encode(text[0]) + EncodeText(text[1..])
  }

  /** The bytes are some text. */
  ghost predicate IsText(b: Bytes) {
    exists text :: EncodeText(text) == b
  }

  // ---------------------------------------------------------------- the validator

  function SecondMin(lead: Byte): Byte {
    if lead == 0xE0 then 0xA0 else if lead == 0xF0 then 0x90 else 0x80
  }

  function SecondMax(lead: Byte): Byte {
    if lead == 0xED then 0x9F else if lead == 0xF4 then 0x8F else 0xBF
  }

  function Width(lead: Byte): nat {
    if lead < 0x80 then 1
    else if lead < 0xC2 || lead > 0xF4 then 0
    else if lead < 0xE0 then 2
    else if lead < 0xF0 then 3
    else 4
  }

  /** What the byte length found by `ScalarWidth` claims about the bytes at the front of `b`. */
  predicate WellFormed(b: Bytes, width: nat) {
    && 0 < width <= |b| && width == Width(b[0])
    && (width > 1 ==> SecondMin(b[0]) <= b[1] <= SecondMax(b[0]))
    && (forall i | 2 <= i < width :: 0x80 <= b[i] <= 0xBF)
  }

  /** How many bytes from `at` on make up one scalar; zero says that none begins there. */
  method ScalarWidth(b: Bytes, at: nat) returns (width: nat)
    requires at < |b|
    ensures width > 0 ==> WellFormed(b[at..], width)
    ensures width == 0 ==> forall w :: !WellFormed(b[at..], w)
  {
    var lead := b[at];
    width := Width(lead);
    if width <= 1 {
      return width;
    }
    if at + width > |b| {
      return 0;
    }
    var second := b[at + 1];
    if second < SecondMin(lead) || second > SecondMax(lead) {
      return 0;
    }
    for next := 2 to width
      invariant forall i | 2 <= i < next :: 0x80 <= b[at..][i] <= 0xBF
    {
      var byte := b[at + next];
      if byte < 0x80 || byte > 0xBF {
        assert b[at..][next] == byte;
        return 0;
      }
    }
  }

  /** Accepted exactly are the encodings of Unicode texts. */
  method ValidUtf8(b: Bytes) returns (ok: bool)
    ensures ok <==> IsText(b)
  {
    hide IsText, WellFormed;
    var at := 0;
    assert b[0..] == b;
    while at < |b|
      invariant at <= |b|
      invariant IsText(b) <==> IsText(b[at..])
    {
      var width := ScalarWidth(b, at);
      if width == 0 {
        TextStarts(b[at..]);
        return false;
      }
      TextAdvances(b, at, width);
      at := at + width;
    }
    EmptyText();
    assert b[at..] == [];
    return true;
  }

  // ---------------------------------------------------------------- why they agree

  /** A well-formed front encodes a scalar value. */
  lemma DecodeFront(b: Bytes, width: nat) returns (v: Scalar)
    requires WellFormed(b, width)
    ensures 0 < width <= |b| && Encode(v) == b[..width]
  {
    if width == 1 {
      v := b[0];
    } else if width == 2 {
      v := Decode2(b[0], b[1]);
    } else if width == 3 {
      v := Decode3(b[0], b[1], b[2]);
    } else {
      v := Decode4(b[0], b[1], b[2], b[3]);
    }
  }

  lemma Decode2(b0: Byte, b1: Byte) returns (v: Scalar)
    requires 0xC2 <= b0 < 0xE0 && 0x80 <= b1 <= 0xBF
    ensures Encode(v) == [b0, b1]
  {
    v := (b0 - 0xC0) * 0x40 + (b1 - 0x80);
  }

  lemma Decode3(b0: Byte, b1: Byte, b2: Byte) returns (v: Scalar)
    requires 0xE0 <= b0 < 0xF0 && SecondMin(b0) <= b1 <= SecondMax(b0) && 0x80 <= b2 <= 0xBF
    ensures Encode(v) == [b0, b1, b2]
  {
    var x0, x1, x2 := b0 - 0xE0, b1 - 0x80, b2 - 0x80;
    v := x0 * 0x1000 + x1 * 0x40 + x2;
    assert v / 0x40 == x0 * 0x40 + x1 && v % 0x40 == x2;
    assert v / 0x1000 == x0 && v / 0x40 % 0x40 == x1;
  }

  lemma Decode4(b0: Byte, b1: Byte, b2: Byte, b3: Byte) returns (v: Scalar)
    requires 0xF0 <= b0 <= 0xF4 && SecondMin(b0) <= b1 <= SecondMax(b0)
    requires 0x80 <= b2 <= 0xBF && 0x80 <= b3 <= 0xBF
    ensures Encode(v) == [b0, b1, b2, b3]
  {
    var x0, x1, x2, x3 := b0 - 0xF0, b1 - 0x80, b2 - 0x80, b3 - 0x80;
    v := x0 * 0x4_0000 + x1 * 0x1000 + x2 * 0x40 + x3;
    assert v / 0x40 == x0 * 0x1000 + x1 * 0x40 + x2 && v % 0x40 == x3;
    assert v / 0x1000 == x0 * 0x40 + x1 && v / 0x40 % 0x40 == x2;
    assert v / 0x4_0000 == x0 && v / 0x1000 % 0x40 == x1;
  }

  /** Every encoding is well formed, so its length and extent can be read off its bytes. */
  lemma EncodeWellFormed(v: Scalar, rest: Bytes)
    ensures WellFormed(Encode(v) + rest, |Encode(v)|)
  {
  }

  lemma TextStarts(b: Bytes)
    requires b != []
    ensures IsText(b) ==> exists w :: WellFormed(b, w)
  {
    if IsText(b) {
      var text :| EncodeText(text) == b;
      EncodeWellFormed(text[0], EncodeText(text[1..]));
    }
  }

  lemma EmptyText()
    ensures IsText([])
  {
    assert EncodeText([]) == [];
  }

  /** No encoding is a proper prefix of another, and different scalars have different encodings. */
  lemma EncodeUnique(v: Scalar, w: Scalar, rest: Bytes, rest': Bytes)
    requires Encode(v) + rest == Encode(w) + rest'
    ensures v == w && rest == rest'
  {
    EncodeWellFormed(v, rest);
    EncodeWellFormed(w, rest');
    var b := Encode(v) + rest;
    var n := |Encode(v)|;
    assert |Encode(w)| == n;
    assert Encode(v) == b[..n] && Encode(w) == b[..n];
    assert rest == b[n..] && rest' == b[n..];
    EncodeInjective(v, w);
  }

  lemma EncodeInjective(v: Scalar, w: Scalar)
    requires Encode(v) == Encode(w)
    ensures v == w
  {
    hide Encode, Value;
    ValueOfEncode(v);
    ValueOfEncode(w);
  }

  lemma ValueOfEncode(v: Scalar)
    ensures Value(Encode(v)) == v
  {
    assert v / 0x1000 == v / 0x40 / 0x40 && v / 0x4_0000 == v / 0x1000 / 0x40;
  }

  function Value(b: Bytes): int {
    if |b| == 1 then b[0]
    else if |b| == 2 then (b[0] as int - 0xC0) * 0x40 + (b[1] as int - 0x80)
    else if |b| == 3 then (b[0] as int - 0xE0) * 0x1000 + (b[1] as int - 0x80) * 0x40 + (b[2] as int - 0x80)
    else if |b| == 4 then (b[0] as int - 0xF0) * 0x4_0000 + (b[1] as int - 0x80) * 0x1000 + (b[2] as int - 0x80) * 0x40 + (b[3] as int - 0x80)
    else -1
  }

  /** Bytes that begin with the encoding of `v` are a text exactly if what follows is one. */
  lemma TextRest(v: Scalar, rest: Bytes)
    ensures IsText(Encode(v) + rest) <==> IsText(rest)
  {
    if IsText(Encode(v) + rest) {
      var text :| EncodeText(text) == Encode(v) + rest;
      EncodeUnique(text[0], v, EncodeText(text[1..]), rest);
    }
    if IsText(rest) {
      var text :| EncodeText(text) == rest;
      assert ([v] + text)[1..] == text;
      assert EncodeText([v] + text) == Encode(v) + rest;
    }
  }

  lemma TextAdvances(b: Bytes, at: nat, width: nat)
    requires at < |b| && WellFormed(b[at..], width)
    ensures 0 < width <= |b| - at
    ensures IsText(b[at..]) <==> IsText(b[at + width..])
  {
    var v := DecodeFront(b[at..], width);
    hide WellFormed, IsText, Encode;
    assert b[at..] == Encode(v) + b[at + width..];
    TextRest(v, b[at + width..]);
  }

  /** Text and bytes determine each other. */
  lemma {:induction false} TextUnique(text: seq<Scalar>, text': seq<Scalar>)
    requires EncodeText(text) == EncodeText(text')
    ensures text == text'
  {
    if text != [] && text' != [] {
      EncodeUnique(text[0], text'[0], EncodeText(text[1..]), EncodeText(text'[1..]));
      TextUnique(text[1..], text'[1..]);
    }
  }
}
