/** Big-endian numbers and their bits in a payload (`be32_to_host`, `host_to_be32` and the 64-bit forms,
    oip_comms.cpp). */
module RtdeNumbers {
  import opened Bytes
  import opened Powers

  function Number(s: seq<byte>): (v: nat)
    ensures v < Pow(256, |s|)
  {
    if s == [] then 0
    else
      NumberBound(Number(s[..|s| - 1]), Pow(256, |s| - 1), s[|s| - 1]);
      Number(s[..|s| - 1]) * 256 + s[|s| - 1]
  }

  lemma NumberBound(v: nat, p: nat, b: byte)
    requires v < p
    ensures v * 256 + b < 256 * p
  {
  }

  /** The low `n` bytes of `v`, high byte first. */
  function ToBytes(v: nat, n: nat): (s: seq<byte>)
    ensures |s| == n
  {
    if n == 0 then [] else ToBytes(v / 256, n - 1) + [v % 256]
  }

  lemma {:induction false} NumberToBytes(v: nat, n: nat)
    requires v < Pow(256, n)
    ensures Number(ToBytes(v, n)) == v
    decreases n
  {
    if n > 0 {
      var s := ToBytes(v, n);
      assert s[..n - 1] == ToBytes(v / 256, n - 1);
      NumberToBytes(v / 256, n - 1);
    }
  }

  lemma {:induction false} ToBytesOfNumber(s: seq<byte>)
    ensures ToBytes(Number(s), |s|) == s
  {
    if s != [] {
      ToBytesOfNumber(s[..|s| - 1]);
    }
  }

  lemma {:induction false} ToBytesSplit(v: nat, m: nat, n: nat)
    ensures ToBytes(v, m + n) == ToBytes(v / Pow(256, n), m) + ToBytes(v % Pow(256, n), n)
    decreases n
  {
    if n > 0 {
      ToBytesSplit(v / 256, m, n - 1);
      DivTwice(v, 256, Pow(256, n - 1));
      LowByte(v % 256, v / 256 % Pow(256, n - 1), v % Pow(256, n));
    }
  }

  lemma LowByte(b: nat, h: nat, r: nat)
    requires b < 256 && r == b + 256 * h
    ensures r / 256 == h && r % 256 == b
  {
  }

  /** `host_to_be32`. */
  function Be32(v: nat): (s: seq<byte>)
    requires v < TWO_TO_THE_32
  {
    [v / 0x100_0000, v / 0x1_0000 % 256, v / 256 % 256, v % 256]
  }

  lemma Be32IsToBytes(v: nat)
    requires v < TWO_TO_THE_32
    ensures Be32(v) == ToBytes(v, 4)
  {
    var a, b, c := v / 256, v / 256 / 256, v / 256 / 256 / 256;
    assert ToBytes(c, 1) == ToBytes(c / 256, 0) + [c % 256] == [c % 256];
    assert ToBytes(b, 2) == ToBytes(c, 1) + [b % 256];
    assert ToBytes(a, 3) == ToBytes(b, 2) + [a % 256];
  }

  /** `host_to_be64`. */
  function Be64(v: nat): (s: seq<byte>)
    requires v < TWO_TO_THE_32 * TWO_TO_THE_32
  {
    Be32(v / TWO_TO_THE_32) + Be32(v % TWO_TO_THE_32)
  }

  lemma Be64IsToBytes(v: nat)
    requires v < TWO_TO_THE_32 * TWO_TO_THE_32
    ensures Be64(v) == ToBytes(v, 8)
  {
    assert Pow(256, 2) == 65536;
    PowAdd(256, 2, 2);
    ToBytesSplit(v, 4, 4);
    Be32IsToBytes(v / TWO_TO_THE_32);
    Be32IsToBytes(v % TWO_TO_THE_32);
  }

  /** `p` with `b` at position `off`. */
  function Put(p: seq<byte>, off: nat, b: seq<byte>): (q: seq<byte>)
    requires off + |b| <= |p|
    ensures |q| == |p|
  {
    p[..off] + b + p[off + |b|..]
  }

  lemma PutThere(p: seq<byte>, off: nat, b: seq<byte>)
    requires off + |b| <= |p|
    ensures Put(p, off, b)[off..off + |b|] == b
  {
  }

  lemma PutSame(p: seq<byte>, off: nat, n: nat)
    requires off + n <= |p|
    ensures Put(p, off, p[off..off + n]) == p
  {
  }

  lemma PutElsewhere(p: seq<byte>, off: nat, b: seq<byte>, x: nat, y: nat)
    requires off + |b| <= |p| && x <= y <= |p| && (y <= off || off + |b| <= x)
    ensures Put(p, off, b)[x..y] == p[x..y]
  {
  }

  // ----- Bits -----

  function Bit(v: nat, k: nat): bool {
    v / Pow2(k) % 2 == 1
  }

  function One(b: bool): int {
    if b then 1 else 0
  }

  /** `v` with bit `k` set or cleared. */
  function WithBit(v: nat, k: nat, b: bool): int {
    v + (One(b) - One(Bit(v, k))) * Pow2(k)
  }

  /** A number around its bit `k`. */
  lemma AroundBit(v: nat, k: nat) returns (q: nat, r: nat)
    ensures v == (2 * q + One(Bit(v, k))) * Pow2(k) + r && r < Pow2(k) && q == v / Pow2(k + 1) && r == v % Pow2(k)
  {
    var h, r1 := DivParts(v, Pow2(k));
    Pow2Step(k);
    DivTwice(v, Pow2(k), 2);
    Commute(Pow2(k), 2);
    q, r := h / 2, r1;
  }

  lemma BitAlgebra(q: int, x: int, y: int, p: int, r: int)
    ensures (2 * q + x) * p + r + (y - x) * p == (2 * q + y) * p + r
    ensures (2 * q + y) * p + r == q * (2 * p) + (y * p + r)
  {
    assert (2 * q + x) * p + (y - x) * p == (2 * q + x + (y - x)) * p;
    assert (2 * q + y) * p == (2 * q) * p + y * p;
    assert q * (2 * p) == (2 * q) * p;
  }

  /** Setting a bit changes neither what is above nor what is below it. */
  lemma WithBitParts(v: nat, k: nat, b: bool)
    ensures WithBit(v, k, b) >= 0 && WithBit(v, k, b) / Pow2(k + 1) == v / Pow2(k + 1)
    ensures WithBit(v, k, b) % Pow2(k) == v % Pow2(k) && WithBit(v, k, b) / Pow2(k) % 2 == One(b)
  {
    var q, r := AroundBit(v, k);
    var p, x, y, w := Pow2(k), One(Bit(v, k)), One(b), WithBit(v, k, b);
    hide *;
    Unfolded(v, k, b);
    BitAlgebra(q, x, y, p, r);
    Pow2Step(k);
    BitRange(y, p, r);
    MulNonNegative(q, 2 * p);
    DivUnique(w, p, 2 * q + y, r);
    DivUnique(w, 2 * p, q, y * p + r);
  }

  lemma Unfolded(v: nat, k: nat, b: bool)
    ensures WithBit(v, k, b) == v + (One(b) - One(Bit(v, k))) * Pow2(k) && 0 <= One(b) <= 1
  {
  }

  lemma BitRange(y: int, p: int, r: int)
    requires 0 <= y <= 1 && 0 <= r < p
    ensures 0 <= y * p + r < 2 * p
  {
  }

  lemma BitAbove(v: nat, k: nat, j: nat)
    requires k < j
    ensures Bit(v, j) == (v / Pow2(k + 1) / Pow2(j - k - 1) % 2 == 1)
  {
    Pow2Add(k + 1, j - k - 1);
    DivTwice(v, Pow2(k + 1), Pow2(j - k - 1));
  }

  lemma BitBelow(v: nat, k: nat, j: nat)
    requires j < k
    ensures Bit(v, j) == Bit(v % Pow2(k), j)
  {
    var p, m := Pow2(j), Pow2(k - j);
    Pow2Add(j, k - j);
    var q, r := DivParts(v, p * m);
    Pow2Step(k - j - 1);
    BelowAlgebra(q, p, m / 2, r, v);
  }

  lemma BelowAlgebra(q: nat, p: nat, h: nat, r: nat, v: nat)
    requires p > 0 && v == q * (p * (2 * h)) + r
    ensures v / p % 2 == r / p % 2
  {
    var a, b := DivParts(r, p);
    EvenMultiple(q, p, h);
    Distribute(2 * (q * h), a, p);
    DivUnique(v, p, 2 * (q * h) + a, b);
  }

  lemma EvenMultiple(q: int, p: int, h: int)
    ensures q * (p * (2 * h)) == (2 * (q * h)) * p
  {
    Commute(p, 2 * h);
    Assoc(q, 2 * h, p);
    Commute(q, 2 * h);
    Assoc(2, h, q);
    Commute(h, q);
  }

  /** Setting a bit sets that bit and no other. */
  lemma BitsAfter(v: nat, k: nat, b: bool, j: nat)
    ensures WithBit(v, k, b) >= 0 && Bit(WithBit(v, k, b), j) == if j == k then b else Bit(v, j)
  {
    WithBitParts(v, k, b);
    var w: nat := WithBit(v, k, b);
    if j > k {
      BitAbove(v, k, j);
      BitAbove(w, k, j);
    } else if j < k {
      BitBelow(v, k, j);
      BitBelow(w, k, j);
    }
  }

  /** A number of `n` bits keeps its size. */
  lemma WithBitBound(v: nat, k: nat, b: bool, n: nat)
    requires k < n && v < Pow2(n)
    ensures 0 <= WithBit(v, k, b) < Pow2(n)
  {
    WithBitParts(v, k, b);
    var w: nat := WithBit(v, k, b);
    Pow2Add(k + 1, n - k - 1);
    var p, m := Pow2(k + 1), Pow2(n - k - 1);
    BoundFromQuotient(v, w, p, m);
  }

  lemma BoundFromQuotient(v: nat, w: nat, p: nat, m: nat)
    requires p > 0 && v < p * m && v / p == w / p
    ensures w < p * m
  {
    var q, r := DivParts(v, p);
    var q2, r2 := DivParts(w, p);
    if q >= m {
      MulLe(m, q, p);
      Commute(m, p);
    }
    MulLe(q + 1, m, p);
    Commute(m, p);
  }
}
