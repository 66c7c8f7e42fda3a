/** Little-endian operands in a byte buffer, as `get_u16`, `get_u32`, `put_u32` and the
    `(int)` casts of the interpreter read and write them. */
module Bytes {
  type byte = b: int | 0 <= b < 256

  const TWO_TO_THE_31: int := 0x8000_0000
  const TWO_TO_THE_32: int := 0x1_0000_0000

  /** The two bytes of `v` modulo 2^16, low byte first. */
  function U16(v: int): (s: seq<byte>)
    ensures |s| == 2
  {
    [v % 256, (v / 256) % 256]
  }

  /** The four bytes of `v` modulo 2^32, low byte first; a negative `v` is stored in two's complement. */
  function U32(v: int): (s: seq<byte>)
    ensures |s| == 4
  {
    [v % 256, (v / 256) % 256, (v / 65536) % 256, (v / 16777216) % 256]
  }

  function GetU16(bc: seq<byte>, p: nat): (v: nat)
    requires p + 2 <= |bc|
  {
    var b0: int, b1: int := bc[p], bc[p + 1];
    b0 + 256 * b1
  }

  function GetU32(bc: seq<byte>, p: nat): (v: nat)
    requires p + 4 <= |bc|
  {
    var b0: int, b1: int, b2: int, b3: int := bc[p], bc[p + 1], bc[p + 2], bc[p + 3];
    b0 + 256 * b1 + 65536 * b2 + 16777216 * b3
  }

  /** `(int)v` for a 32-bit unsigned `v`. */
  function AsInt(v: nat): int {
    if v < TWO_TO_THE_31 then v else v - TWO_TO_THE_32
  }

  /** `code` stands at position `pc` of the buffer. */
  ghost predicate At(bc: seq<byte>, pc: nat, code: seq<byte>) {
    pc + |code| <= |bc| && bc[pc..pc + |code|] == code
  }

  lemma Assoc3(a: seq<byte>, b: seq<byte>, c: seq<byte>)
    ensures a + b + c == a + (b + c)
  {
  }

  lemma Assoc4(a: seq<byte>, b: seq<byte>, c: seq<byte>, d: seq<byte>)
    ensures a + b + c + d == a + (b + c + d)
  {
  }

  lemma Assoc5(a: seq<byte>, b: seq<byte>, c: seq<byte>, d: seq<byte>, e: seq<byte>)
    ensures a + b + c + d + e == a + (b + c + d + e)
  {
  }

  lemma AtByte(bc: seq<byte>, pc: nat, code: seq<byte>, i: nat)
    requires At(bc, pc, code) && i < |code|
    ensures bc[pc + i] == code[i]
  {
    assert bc[pc..pc + |code|][i] == code[i];
  }

  lemma AtSplit(bc: seq<byte>, pc: nat, a: seq<byte>, b: seq<byte>)
    requires At(bc, pc, a + b)
    ensures At(bc, pc, a) && At(bc, pc + |a|, b)
  {
    var w := bc[pc..pc + |a + b|];
    assert bc[pc..pc + |a|] == w[..|a|] == a;
    assert bc[pc + |a|..pc + |a| + |b|] == w[|a|..] == b;
  }

  lemma U16RoundTrip(bc: seq<byte>, p: nat, v: int)
    requires At(bc, p, U16(v))
    requires 0 <= v < 65536
    ensures GetU16(bc, p) == v
  {
    AtByte(bc, p, U16(v), 0);
    AtByte(bc, p, U16(v), 1);
  }

  lemma U32RoundTrip(bc: seq<byte>, p: nat, v: int)
    requires At(bc, p, U32(v))
    requires -TWO_TO_THE_31 <= v < TWO_TO_THE_32
    ensures GetU32(bc, p) == if v < 0 then v + TWO_TO_THE_32 else v
  {
    AtByte(bc, p, U32(v), 0);
    AtByte(bc, p, U32(v), 1);
    AtByte(bc, p, U32(v), 2);
    AtByte(bc, p, U32(v), 3);
    U32Value(v);
  }

  lemma U32Value(v: int)
    requires -TWO_TO_THE_31 <= v < TWO_TO_THE_32
    ensures v % 256 + 256 * ((v / 256) % 256) + 65536 * ((v / 65536) % 256) + 16777216 * ((v / 16777216) % 256)
            == if v < 0 then v + TWO_TO_THE_32 else v
  {
    var a, b, c := v / 256, v / 65536, v / 16777216;
    assert b == a / 256 && c == b / 256;
    assert v == v % 256 + 256 * a && a == a % 256 + 256 * b && b == b % 256 + 256 * c;
  }

  /** A jump offset written by `put_u32` reads back as the same signed number. */
  lemma OffsetRoundTrip(bc: seq<byte>, p: nat, v: int)
    requires At(bc, p, U32(v))
    requires -TWO_TO_THE_31 <= v < TWO_TO_THE_31
    ensures AsInt(GetU32(bc, p)) == v
  {
    U32RoundTrip(bc, p, v);
  }
}
