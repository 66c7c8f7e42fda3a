/** The 64 bits of a double, and the end of `js_atod` (dtoa.c) that packs a mantissa and an exponent into them. What
    the bits are worth is said from their fields alone, as IEEE 754-2019 does in section 3.4. */
module FloatBits {
  import opened Powers
  import opened Bignums
  import opened FloatRounding
  import opened FloatNearest
  import opened RadixNumbers
  import opened FloatScaling
  import Limbs

  // ----- The format -----

  /** The bits of infinity; the finite numbers without a sign are below. */
  const INFINITY_BITS: nat := 0x7FF0_0000_0000_0000

  /** `m * 2^k`, `k` of either sign. */
  function Binary(m: nat, k: int): real {
    if k >= 0 then (m * Pow2(k)) as real else m as real / Pow2(-k) as real
  }

  /** The number with exponent field `b` and fraction `t`. */
  function FieldValue(b: nat, t: nat): real {
    if b == 0 then Binary(t, 1 - 1023 - 52) else Binary(0x10_0000_0000_0000 + t, b as int - 1023 - 52)
  }

  function BitsValue(a: nat): real {
    FieldValue(a / 0x10_0000_0000_0000, a % 0x10_0000_0000_0000)
  }

  /** No finite pattern is nearer to `x` than `a`, and of two equally near the one with an even fraction is taken. */
  ghost predicate NearestBits(x: real, a: nat) {
    && a < INFINITY_BITS
    && forall b: nat :: b < INFINITY_BITS ==> BitsAsNear(x, a, b)
  }

  predicate BitsAsNear(x: real, a: nat, b: nat) {
    var mine, other := Error(x, BitsValue(a)), Error(x, BitsValue(b));
    mine <= other && (mine == other && BitsValue(a) != BitsValue(b) ==> a % 2 == 0)
  }

  /** Halfway between the greatest finite number, (2^53 - 1) * 2^971, and 2^1024. */
  function OverflowBound(): real {
    Binary(0x3F_FFFF_FFFF_FFFF, 970)
  }

  /** Reading a number is right when it is infinite from the bound on and the nearest finite number below it. */
  ghost predicate RightBits(x: real, a: nat) {
    if x >= OverflowBound() then a == INFINITY_BITS else NearestBits(x, a)
  }

  // ----- Packing -----

  /** The last lines of `js_atod`, without the sign. */
  function Packed(m: nat, e: int): nat {
    if m == 0 then 0
    else if e > 1024 then INFINITY_BITS
    else if e < -1073 then 0
    else if e < -1021 then m / Pow2(-e - 1021)
    else (e + 1022) * 0x10_0000_0000_0000 + m % 0x10_0000_0000_0000
  }

  lemma BinaryIsValue(m: nat, k: int)
    ensures Binary(m, k) == Value(m, k)
  {
    TwoParts(k);
    if k >= 0 {
      Product(m, Pow2(k));
    } else {
      var p := Pow2(-k) as real;
      assert m as real / p == m as real * (1.0 / p);
    }
  }

  lemma Fraction52()
    ensures Pow2(52) == 0x10_0000_0000_0000 && Pow2(53) == 0x20_0000_0000_0000
  {
    hide Pow2;
    Sixteen();
    Pow2Add(4, 4);
    Pow2Add(8, 8);
    Pow2Add(16, 16);
    Pow2Add(32, 16);
    Pow2Add(48, 4);
    Pow2Step(52);
  }

  lemma Sixteen()
    ensures Pow2(4) == 16
  {
    assert Pow2(3) == 8;
    Pow2Step(3);
  }

  /** Scaling up the mantissa and down the exponent. */
  lemma ValueShift(m: nat, k: int, s: nat)
    ensures Value(m * Pow2(s), k) == Value(m, k + s)
  {
    TwoAdd(k, s);
    TwoParts(s);
    hide Two;
    Product(m, Pow2(s));
    assert m as real * Pow2(s) as real * Two(k) == m as real * (Two(k) * Pow2(s) as real);
  }

  /** Below overflow the bits are worth exactly the mantissa and exponent. */
  lemma PackedValue(m: nat, e: int)
    requires IsDouble(m, e) && (m == 0 || (Pow2(52) <= m && e <= 1024))
    ensures Packed(m, e) < INFINITY_BITS && BitsValue(Packed(m, e)) == Value(m, e - 53)
    ensures IsEven(m, e) ==> Packed(m, e) % 2 == 0
  {
    Fraction52();
    if m == 0 {
      PackedZero(e);
    } else if e < -1021 {
      PackedSubnormal(m, e);
    } else {
      PackedNormal(m, e);
    }
  }

  lemma PackedZero(e: int)
    ensures Packed(0, e) == 0 && BitsValue(0) == Value(0, e - 53) == 0.0
  {
    BinaryIsValue(0, 1 - 1023 - 52);
    hide Two;
  }

  lemma PackedNormal(m: nat, e: int)
    requires -1021 <= e <= 1024 && 0x10_0000_0000_0000 <= m < 0x20_0000_0000_0000
    ensures Packed(m, e) < INFINITY_BITS && BitsValue(Packed(m, e)) == Value(m, e - 53)
    ensures m % 2 == 0 ==> Packed(m, e) % 2 == 0
  {
    var t: nat := m - 0x10_0000_0000_0000;
    var b: nat := e + 1022;
    DivUnique(m, 0x10_0000_0000_0000, 1, t);
    var a := Packed(m, e);
    assert a == b * 0x10_0000_0000_0000 + t;
    DivUnique(a, 0x10_0000_0000_0000, b, t);
    hide Binary;
    assert BitsValue(a) == Binary(m, e - 53);
    BinaryIsValue(m, e - 53);
  }

  lemma PackedSubnormal(m: nat, e: int)
    requires e < -1021 && 0x10_0000_0000_0000 <= m < 0x20_0000_0000_0000 && IsDouble(m, e)
    ensures Packed(m, e) < INFINITY_BITS && BitsValue(Packed(m, e)) == Value(m, e - 53)
    ensures IsEven(m, e) ==> Packed(m, e) % 2 == 0
  {
    Fraction52();
    var s: nat := -e - 1021;
    assert m % Pow2(s) == 0 by { DoubleIs(m, e, s); }
    NotTooSmall(m, s);
    var p := Pow2(s);
    var a, r := DivParts(m, p);
    HalfAtLeast(m, a, s);
    assert Packed(m, e) == a;
    DivUnique(a, 0x10_0000_0000_0000, 0, a);
    BinaryIsValue(a, -1074);
    ValueShift(a, e - 53, s);
    assert e - 53 + s == -1074;
    hide Binary, Value;
    assert BitsValue(a) == Binary(a, -1074);
    if IsEven(m, e) {
      EvenShifted(m, e, s, a);
    }
  }

  lemma DoubleIs(m: nat, e: int, s: nat)
    requires s == -e - 1021 && s > 0
    ensures IsDouble(m, e) ==> m % Pow2(s) == 0
    ensures IsEven(m, e) ==> m % Pow2(s + 1) == 0
  {
    hide Pow2;
  }

  /** A mantissa of 53 bits is no multiple of 2^53 or more. */
  lemma NotTooSmall(m: nat, s: nat)
    requires 0 < m < Pow2(53) && m % Pow2(s) == 0
    ensures s <= 52
  {
    if s > 52 {
      PowMonotone(2, 53, s);
      Limbs.SmallMod(m, Pow2(s));
    }
  }

  lemma HalfAtLeast(m: nat, a: nat, s: nat)
    requires m == a * Pow2(s) < Pow2(53) && s > 0
    ensures a < Pow2(52)
  {
    Pow2Step(s - 1);
    Pow2Step(52);
    hide Pow2;
    MulAtLeast(Pow2(s - 1), a);
    DoubleOut(a, Pow2(s - 1));
    Commute(a, Pow2(s - 1));
  }

  lemma EvenShifted(m: nat, e: int, s: nat, a: nat)
    requires s == -e - 1021 && s > 0 && IsEven(m, e) && m == a * Pow2(s)
    ensures a % 2 == 0
  {
    DoubleIs(m, e, s);
    Pow2Step(s);
    var q, r := DivParts(m, Pow2(s + 1));
    hide Pow2;
    DoubleOut(q, Pow2(s));
    assert a * Pow2(s) == (2 * q) * Pow2(s);
    SameFactor(a, 2 * q, Pow2(s));
  }

  lemma SameFactor(a: int, b: int, p: int)
    requires p > 0 && a * p == b * p
    ensures a == b
  {
    if a < b {
      MulLt(a, b, p);
    } else if b < a {
      MulLt(b, a, p);
    }
  }

  // ----- The nearest pattern -----

  /** Every finite pattern is worth a mantissa of 53 bits and an exponent not below the least. */
  lemma PatternIsDouble(a: nat) returns (m: nat, k: int)
    requires a < INFINITY_BITS
    ensures m < Pow2(53) && k >= SUBNORMAL_EXPONENT && BitsValue(a) == FloatNearest.Value(m, k)
  {
    Fraction52();
    var b, t := DivParts(a, 0x10_0000_0000_0000);
    m, k := if b == 0 then t else 0x10_0000_0000_0000 + t, if b == 0 then -1074 else b - 1075;
    BinaryIsValue(m, k);
    hide Binary, Pow2;
  }

  /** What is nearest as a mantissa and an exponent is nearest as bits. */
  lemma PackedNearest(x: real, m: nat, e: int)
    requires IsNearest(x, NearestEven, m, e) && (m == 0 || Pow2(52) <= m) && (m == 0 || e <= 1024)
    ensures NearestBits(x, Packed(m, e))
  {
    PackedValue(m, e);
    var a := Packed(m, e);
    hide Packed, BitsValue, IsDouble, IsEven, Pow2, Error, FloatNearest.Value;
    forall b: nat | b < INFINITY_BITS ensures BitsAsNear(x, a, b) {
      var m2, k2 := PatternIsDouble(b);
      assert AsNear(x, NearestEven, m, e, m2, k2);
    }
  }

  // ----- Overflow -----

  lemma TwoGrows(k: int, l: int)
    requires k <= l
    ensures Two(k) <= Two(l)
  {
    hide *;
    TwoAdd(k, l - k);
    assert k + (l - k) == l;
    TwoParts(l - k);
    AtLeastOnce(Two(k), Two(l - k));
  }

  lemma AtLeastOnce(t: real, j: real)
    requires t > 0.0 && j >= 1.0
    ensures t <= t * j
  {
  }

  lemma TimesMonotone(a: real, b: real, t: real)
    requires a <= b && t >= 0.0
    ensures a * t <= b * t
  {
  }

  /** The greatest finite number, 2^1024, and the point halfway, in units of 2^970. */
  lemma Bounds()
    ensures var u := Two(970);
      && FloatNearest.Value(0x1F_FFFF_FFFF_FFFF, 971) == 0x3F_FFFF_FFFF_FFFE as real * u
      && FloatNearest.Value(0x10_0000_0000_0000, 972) == 0x40_0000_0000_0000 as real * u
      && OverflowBound() == 0x3F_FFFF_FFFF_FFFF as real * u
  {
    BinaryIsValue(0x3F_FFFF_FFFF_FFFF, 970);
    assert Pow2(1) == 2 && Pow2(2) == 4;
    ValueShift(0x1F_FFFF_FFFF_FFFF, 970, 1);
    ValueShift(0x10_0000_0000_0000, 970, 2);
    hide Two, Binary, Pow2;
  }

  /** A mantissa and exponent that fit are worth at most the greatest finite number, others at least 2^1024. */
  lemma ValueBounds(m: nat, e: int)
    requires m < 0x20_0000_0000_0000
    ensures e <= 1024 ==> FloatNearest.Value(m, e - 53) <= FloatNearest.Value(0x1F_FFFF_FFFF_FFFF, 971)
    ensures e > 1024 && m >= 0x10_0000_0000_0000
            ==> FloatNearest.Value(m, e - 53) >= FloatNearest.Value(0x10_0000_0000_0000, 972)
  {
    hide *;
    if e <= 1024 {
      TwoGrows(e - 53, 971);
      ValueGrows(m, 0x1F_FFFF_FFFF_FFFF, e - 53, 971);
    } else if m >= 0x10_0000_0000_0000 {
      TwoGrows(972, e - 53);
      ValueGrows(0x10_0000_0000_0000, m, 972, e - 53);
    }
  }

  lemma ValueGrows(m: nat, n: nat, k: int, l: int)
    requires m <= n && n > 0 && Two(k) <= Two(l)
    ensures FloatNearest.Value(m, k) <= FloatNearest.Value(n, l)
  {
    hide *;
    ValueIs(m, k);
    ValueIs(n, l);
    TimesMonotone(m as real, n as real, Two(k));
    Commuted(n as real, Two(k), Two(l));
  }

  lemma Commuted(c: real, s: real, t: real)
    requires c > 0.0 && s <= t
    ensures c * s <= c * t
  {
  }

  /** At least as near to `x` as the greatest number, from above. */
  lemma NearerAbove(x: real, v: real, u: real)
    requires u > 0.0 && v >= 0x40_0000_0000_0000 as real * u
    requires Error(x, v) <= Error(x, 0x3F_FFFF_FFFF_FFFE as real * u)
    ensures x >= 0x3F_FFFF_FFFF_FFFF as real * u
  {
  }

  /** At least as near to `x` as 2^1024, from below. */
  lemma NearerBelow(x: real, v: real, u: real)
    requires u > 0.0 && v <= 0x3F_FFFF_FFFF_FFFE as real * u
    requires Error(x, v) <= Error(x, 0x40_0000_0000_0000 as real * u)
    ensures x <= 0x3F_FFFF_FFFF_FFFF as real * u
    ensures x == 0x3F_FFFF_FFFF_FFFF as real * u
            ==> v == 0x3F_FFFF_FFFF_FFFE as real * u && Error(x, v) == Error(x, 0x40_0000_0000_0000 as real * u)
  {
  }

  /** The greatest number has an odd mantissa. */
  lemma TopIsOdd(m: nat, e: int)
    requires 0 < m < 0x20_0000_0000_0000 && e <= 1024
    requires FloatNearest.Value(m, e - 53) == FloatNearest.Value(0x1F_FFFF_FFFF_FFFF, 971)
    ensures !IsEven(m, e)
  {
    hide *;
    var top: nat := 0x1F_FFFF_FFFF_FFFF;
    ValueIs(m, e - 53);
    ValueIs(top, 971);
    if e < 1024 {
      TwoGrows(e - 53, 970);
      ValueGrows(m, top, e - 53, 970);
      ValueIs(top, 970);
      TwoStep(970);
      HalfTop(top as real * Two(970), top as real, Two(970), Two(971));
    } else {
      Cancel(m as real, top as real, Two(971));
      OddMantissa(m, e);
    }
  }

  lemma TwoStep(k: int)
    ensures Two(k + 1) == 2.0 * Two(k)
  {
    TwoAdd(k, 1);
    TwoParts(1);
    assert Pow2(1) == 2;
    hide Two;
  }

  lemma HalfTop(h: real, top: real, t: real, t2: real)
    requires top > 0.0 && t > 0.0 && h == top * t && t2 == 2.0 * t
    ensures h < top * t2
  {
    PositiveProduct(top, t);
    assert top * (2.0 * t) == 2.0 * (top * t);
  }

  lemma OddMantissa(m: nat, e: int)
    requires m == 0x1F_FFFF_FFFF_FFFF && e == 1024
    ensures !IsEven(m, e)
  {
  }

  lemma ZeroValue(k: int)
    ensures FloatNearest.Value(0, k) == 0.0
  {
    hide Two;
  }

  /** The mantissa is past 53 bits of exponent 1024 exactly when the number has reached the bound. */
  lemma OverflowWhen(x: real, m: nat, e: int)
    requires IsNearest(x, NearestEven, m, e) && (m == 0 || Pow2(52) <= m)
    ensures (m != 0 && e > 1024) <==> x >= OverflowBound()
  {
    hide *;
    Fraction52();
    Bounds();
    NearestParts(x, m, e, 0x1F_FFFF_FFFF_FFFF, 971);
    NearestParts(x, m, e, 0x10_0000_0000_0000, 972);
    ValueBounds(m, e);
    ZeroValue(e - 53);
    var v, u := FloatNearest.Value(m, e - 53), Two(970);
    if m != 0 && e > 1024 {
      NearerAbove(x, v, u);
    } else {
      if m == 0 {
        PositiveProduct(0x3F_FFFF_FFFF_FFFE as real, u);
      }
      NearerBelow(x, v, u);
      if x == OverflowBound() {
        FarApart(u);
        if m > 0 {
          TopIsOdd(m, e);
        }
      }
    }
  }

  lemma FarApart(u: real)
    requires u > 0.0
    ensures 0.0 < 0x3F_FFFF_FFFF_FFFE as real * u < 0x40_0000_0000_0000 as real * u
  {
  }

  lemma NearestParts(x: real, m: nat, e: int, m2: nat, k2: int)
    requires IsNearest(x, NearestEven, m, e) && m2 < 0x20_0000_0000_0000 && k2 >= 0
    ensures m < 0x20_0000_0000_0000
    ensures var mine, other := Error(x, FloatNearest.Value(m, e - 53)), Error(x, FloatNearest.Value(m2, k2));
      && mine <= other
      && (mine == other && FloatNearest.Value(m, e - 53) != FloatNearest.Value(m2, k2) ==> IsEven(m, e))
  {
    Fraction52();
    assert AsNear(x, NearestEven, m, e, m2, k2);
    hide IsEven, Error, FloatNearest.Value, Pow2;
  }

  lemma BinaryNumber(v: nat, k: int)
    ensures Exact(v, 1, -k) == Binary(v, k)
  {
    hide *;
    BinaryIsValue(v, k);
    ValueIs(v, k);
    ExactIs(v, 1, -k);
    assert - -k == k;
    assert v as real / 1.0 == v as real;
  }

  // ----- The end of js_atod -----

  /** What `js_atod` reads from the digits gathered in `v`: `v` times a power of the radix, or for a radix that is a
      power of two, of 2. */
  function NumberRead(v: nat, radix1: nat, radixShift: nat, binary: bool, expn: int): real
    requires radix1 > 0
  {
    if binary then Binary(v, expn) else Scaled(v, radix1, radixShift, expn)
  }

  /** The end of `js_atod` for digits that are not all zero: scaling, rounding and packing. The bits are those of the
      nearest double, ties to even, and of infinity from halfway past the greatest finite number on. */
  method ReadBits(tmp0: Bignum, radix1: nat, radixShift: nat, binary: bool, expn: int, perLimb: nat) returns (a: nat)
    requires tmp0.Valid() && tmp0.Val() > 0 && tmp0.len + Need(expn, 55) + 4 <= tmp0.tab.Length
    requires 0 < radix1 < 0x1_0000_0000 && perLimb >= 1 && Pow(radix1, perLimb) < 0x1_0000_0000
    modifies tmp0, tmp0.tab
    ensures RightBits(NumberRead(old(tmp0.Val()), radix1, radixShift, binary, expn), a)
  {
    hide *;
    ghost var v := tmp0.Val();
    ghost var x := NumberRead(v, radix1, radixShift, binary, expn);
    NumberReadIs(v, radix1, radixShift, binary, expn);
    LengthRoom(tmp0.len, expn, tmp0.tab.Length);
    var m, e;
    if binary {
      BinaryNumber(v, expn);
      WholeSticky(v);
      m, e := RoundToD(tmp0, -expn, NearestEven, v, 1);
      RoundedIsNearest(v, 1, -expn, NearestEven, m, e);
      Normal(v, 1, -expn, m, e);
    } else {
      m, e := MulPowRoundToD(tmp0, radix1, radixShift, expn, NearestEven, perLimb);
      Normal(Numerator(v, radix1, expn), Denominator(radix1, expn), -expn * radixShift, m, e);
    }
    a := Packed(m, e);
    Finished(x, m, e);
  }

  lemma NumberReadIs(v: nat, radix1: nat, radixShift: nat, binary: bool, expn: int)
    requires radix1 > 0
    ensures NumberRead(v, radix1, radixShift, binary, expn)
         == if binary then Binary(v, expn) else Scaled(v, radix1, radixShift, expn)
  {
    hide Binary, Scaled;
  }

  lemma WholeSticky(v: nat)
    ensures Sticky(v, 1) == v
  {
  }

  lemma LengthRoom(len: nat, expn: int, room: nat)
    requires len + Need(expn, 55) + 4 <= room
    ensures len + 4 <= room && Limbs.BASE == 0x1_0000_0000
  {
  }

  lemma Normal(n: nat, d: nat, eOffset: int, m: nat, e: int)
    requires d > 0 && RoundedDouble(n, d, eOffset, NearestEven, m, e)
    ensures m == 0 || Pow2(52) <= m
  {
    hide Pow2, InBinade;
    var E :| InBinade(n, d, eOffset, E) && RoundedIn(n, d, eOffset, NearestEven, m, e, E);
  }

  lemma Finished(x: real, m: nat, e: int)
    requires IsNearest(x, NearestEven, m, e) && (m == 0 || Pow2(52) <= m)
    ensures RightBits(x, Packed(m, e))
  {
    OverflowWhen(x, m, e);
    hide IsNearest, NearestBits, OverflowBound, Pow2;
    if m == 0 || e <= 1024 {
      PackedNearest(x, m, e);
    }
  }
}
