/** Machine-width numbers, bytes and the two failure types shared by every module. */
module Prelude {

  datatype Option<+T> = None | Some(value: T)

  datatype Result<+T, +E> = Ok(value: T) | Err(error: E)

  const U32_MAX := 0xFFFF_FFFF
  const U64_MAX := 0xFFFF_FFFF_FFFF_FFFF

  type Byte = x: int | 0 <= x < 256
  type Bytes = seq<Byte>
  type U32 = x: int | 0 <= x <= 0xFFFF_FFFF
  type U64 = x: int | 0 <= x <= 0xFFFF_FFFF_FFFF_FFFF

  function Min(a: int, b: int): int {
    if a <= b then a else b
  }

  function Max(a: int, b: int): int {
    if a >= b then a else b
  }

  /** Rust's `saturating_sub` on an unsigned word. */
  function SatSub(a: nat, b: nat): nat {
    if b <= a then a - b else 0
  }

  /** The little-endian word at an offset. */
  function ReadU32(b: Bytes, at: nat): U32
    requires at + 4 <= |b|
  {
    b[at] as int + b[at + 1] as int * 0x100 + b[at + 2] as int * 0x1_0000 + b[at + 3] as int * 0x100_0000
  }

  function LittleEndian(v: U32): (b: Bytes)
    ensures |b| == 4
  {
    [v % 0x100, v / 0x100 % 0x100, v / 0x1_0000 % 0x100, v / 0x100_0000]
  }

  lemma WordRoundTrip(b: Bytes, at: nat, v: U32)
    requires at + 4 <= |b| && b[at..at + 4] == LittleEndian(v)
    ensures ReadU32(b, at) == v
  {
    var w := b[at..at + 4];
    assert b[at] == w[0] && b[at + 1] == w[1] && b[at + 2] == w[2] && b[at + 3] == w[3];
    assert v / 0x1_0000 == v / 0x100 / 0x100 && v / 0x100_0000 == v / 0x1_0000 / 0x100;
  }

  /** The least significant byte comes first. */
  lemma WordLayout()
    ensures LittleEndian(0x0403_0201) == [1, 2, 3, 4] && ReadU32([1, 2, 3, 4], 0) == 0x0403_0201
  {
    var b: Bytes := [1, 2, 3, 4];
    WordBytes(b, 0);
    assert b[0..4] == b && ReadU32(b, 0) == 0x0403_0201;
    hide LittleEndian;
  }

  lemma WordBytes(b: Bytes, at: nat)
    requires at + 4 <= |b|
    ensures LittleEndian(ReadU32(b, at)) == b[at..at + 4]
  {
    var v := ReadU32(b, at);
    assert v / 0x100 == b[at + 1] as int + b[at + 2] as int * 0x100 + b[at + 3] as int * 0x1_0000;
    assert v / 0x1_0000 == b[at + 2] as int + b[at + 3] as int * 0x100;
  }

  /** Concatenation is associative; calling this spares the solver the search. */
  lemma Associate<T>(p: seq<T>, q: seq<T>, r: seq<T>)
    ensures p + (q + r) == (p + q) + r
  {
  }
}
