/** Scaling by a power of the radix and rounding: `pow_ui`, `pow_ui_inv`, `mul_pow`, `mul_pow_round`,
    `round_to_d`, `mul_pow_round_to_d`. The digit counts of the tables are a parameter: `perLimb`
    factors of `radix1` fit one limb. */
module FloatScaling {
  import opened Powers
  import opened Limbs
  import opened Reciprocal
  import opened Bignums
  import opened FloatRounding
  import opened FloatNearest
  import opened RadixNumbers

  // ----- powers -----

  const U64: int := 0x1_0000_0000_0000_0000

  lemma ModProduct(x: nat, y: nat, m: nat)
    requires m > 0
    ensures ((x % m) * (y % m)) % m == (x * y) % m
  {
    var a, u := DivParts(x, m);
    var b, v := DivParts(y, m);
    var c, w := DivParts(u * v, m);
    ProductParts(a, u, b, v, m);
    Distribute(a * (b * m + v) + u * b, c, m);
    DivUnique(x * y, m, a * y + u * b + c, w);
  }

  lemma ProductParts(a: int, u: int, b: int, v: int, m: int)
    ensures (a * m + u) * (b * m + v) == (a * (b * m + v) + u * b) * m + u * v
  {
    var y := b * m + v;
    assert (a * m + u) * y == (a * y) * m + u * y;
    assert u * y == (u * b) * m + u * v;
  }

  lemma PowSquare(a: nat, k: nat)
    ensures Pow(a, 2 * k) == Pow(a, k) * Pow(a, k) && Pow(a, 2 * k + 1) == Pow(a, k) * Pow(a, k) * a
  {
    PowAdd(a, k, k);
    assert Pow(a, 2 * k + 1) == a * Pow(a, 2 * k);
  }

  method BitLength(b: nat) returns (n: nat)
    requires b > 0
    ensures n >= 1 && b / Pow2(n - 1) == 1
  {
    n := 1;
    var c := b;
    assert Pow2(0) == 1;
    while c > 1
      invariant n >= 1 && c >= 1 && c == b / Pow2(n - 1)
      decreases c
    {
      Pow2Step(n - 1);
      DivTwice(b, Pow2(n - 1), 2);
      c := c / 2;
      n := n + 1;
    }
  }

  /** `pow_ui`: binary powering in 64-bit arithmetic. */
  method PowUi(a: nat, b: nat) returns (r: int)
    requires a < 0x1_0000_0000
    ensures r == Pow(a, b) % U64
  {
    if b == 0 {
      assert Pow(a, 0) == 1;
      return 1;
    }
    if b == 1 {
      assert Pow(a, 1) == a * Pow(a, 0) == a;
      return a;
    }
    r := a;
    var nBits := BitLength(b);
    var i := nBits - 1;
    assert Pow(a, 1) == a * Pow(a, 0) == a;
    while i > 0
      invariant 0 <= i && r == Pow(a, b / Pow2(i)) % U64
    {
      i := i - 1;
      var bit := b / Pow2(i) % 2;
      PowTurn(a, b, i, r);
      r := (r * r) % U64;
      if bit == 1 {
        r := (r * a) % U64;
      }
    }
    assert b / Pow2(0) == b;
  }

  lemma PowTurn(a: nat, b: nat, i: nat, r: int)
    requires a < 0x1_0000_0000 && r == Pow(a, b / Pow2(i + 1)) % U64
    ensures var s := (r * r) % U64; Pow(a, b / Pow2(i)) % U64 == if b / Pow2(i) % 2 == 1 then (s * a) % U64 else s
  {
    Pow2Step(i);
    DivTwice(b, Pow2(i), 2);
    hide Pow2;
    var k, e := b / Pow2(i + 1), b / Pow2(i);
    assert e == 2 * k + e % 2;
    PowSquare(a, k);
    hide Pow;
    var p := Pow(a, k);
    ModProduct(p, p, U64);
    ModProduct(p * p, a, U64);
    SmallMod(a, U64);
  }

  /** `pow_ui_inv`: the power, normalised to have its top bit set, the shift and the reciprocal. */
  method PowUiInv(a: nat, n: nat) returns (b: limb, bInv: limb, shift: nat)
    requires 0 < a < 0x1_0000_0000 && Pow(a, n) < BASE
    ensures shift < LIMB_BITS && 0x8000_0000 <= b && b == Pow(a, n) * Pow2(shift) && bInv == ReciprocalOf(b)
  {
    var r := PowUi(a, n);
    SmallMod(Pow(a, n), U64);
    hide Pow;
    shift := Clz32(r);
    NormalizedPower(r, shift);
    hide ReciprocalOf;
    b := (r * Pow2(shift)) % BASE;
    bInv := ReciprocalOf(b);
  }

  lemma NormalizedPower(r: nat, z: nat)
    requires z < 32 && Pow2(31 - z) <= r < Pow2(32 - z)
    ensures 0x8000_0000 <= r * Pow2(z) < BASE && (r * Pow2(z)) % BASE == r * Pow2(z)
  {
    Pow2Add(31 - z, z);
    Pow2Add(32 - z, z);
    Pow2Limb();
    Pow2Step(31);
    MulLe(Pow2(31 - z), r, Pow2(z));
    MulLt(r, Pow2(32 - z), Pow2(z));
    hide Pow2;
  }

  // ----- mul_pow -----

  function Abs(x: int): nat { if x < 0 then -x else x }

  /** Limbs the scaling may add. */
  function Need(f: int, e: int): nat { Abs(f) + (if e > 0 then e else 0) + 4 }

  lemma PowLimb(radix1: nat, n: nat, perLimb: nat)
    requires radix1 > 0 && n <= perLimb && Pow(radix1, perLimb) < BASE
    ensures 0 < Pow(radix1, n) < BASE
  {
    PowMonotone(radix1, n, perLimb);
  }

  /** The multiplications of `mul_pow`, up to `perLimb` factors at a time. */
  method MulUp(a: Bignum, radix1: nat, f0: nat, perLimb: nat)
    requires a.Valid() && a.Val() > 0 && a.len + f0 <= a.tab.Length
    requires 0 < radix1 < BASE && perLimb >= 1 && Pow(radix1, perLimb) < BASE
    modifies a, a.tab
    ensures a.Valid() && a.Val() == old(a.Val()) * Pow(radix1, f0) && a.len <= old(a.len) + f0
  {
    ghost var v := a.Val();
    hide Bignum.Val;
    var f, b, n0 := f0, 0, 0;
    PowNone(radix1, v);
    hide Pow;
    while f != 0
      invariant 0 <= f <= f0 && 0 <= n0 <= perLimb && (n0 > 0 ==> b == Pow(radix1, n0))
      invariant a.Valid() && a.Val() > 0 && a.len <= old(a.len) + (f0 - f)
      invariant a.Val() == v * Pow(radix1, f0 - f)
      decreases f
    {
      var n := if f < perLimb then f else perLimb;
      PowLimb(radix1, n, perLimb);
      if n != n0 {
        b := PowUi(radix1, n);
        SmallMod(Pow(radix1, n), U64);
        n0 := n;
      }
      a.MulSmall(b);
      PowAdd(radix1, f0 - f, n);
      Assoc(v, Pow(radix1, f0 - f), b);
      MulPositive(v * Pow(radix1, f0 - f), b);
      f := f - n;
    }
  }

  lemma PowNone(radix1: nat, v: nat)
    ensures Pow(radix1, 0) == 1 && v * Pow(radix1, 0) == v
  {
  }

  /** The divisions of `mul_pow`: truncated, with a note of whether anything was lost. */
  method DivDown(a: Bignum, radix1: nat, f0: nat, perLimb: nat) returns (rem: bool)
    requires a.Valid() && f0 > 0
    requires 0 < radix1 < BASE && perLimb >= 1 && Pow(radix1, perLimb) < BASE
    modifies a, a.tab
    ensures a.Valid() && a.len <= old(a.len) && (a.Val() == 0 ==> a.len == 1) && Pow(radix1, f0) > 0
    ensures a.Val() == old(a.Val()) / Pow(radix1, f0) && rem == (old(a.Val()) % Pow(radix1, f0) != 0)
  {
    ghost var v := a.Val();
    hide Bignum.Val;
    hide ReciprocalOf;
    var f := f0;
    var b: limb, bInv: limb, shift: nat, n0: nat := 0, 0, 0, 0;
    rem := false;
    PowNone(radix1, v);
    hide Pow;
    while f != 0
      invariant 0 <= f <= f0 && n0 <= perLimb && (f == f0 ==> n0 == 0)
      invariant n0 > 0
              ==> shift < LIMB_BITS && 0x8000_0000 <= b && b == Pow(radix1, n0) * Pow2(shift) && bInv == ReciprocalOf(b)
      invariant a.Valid() && a.len <= old(a.len) && (f < f0 ==> a.Val() == 0 ==> a.len == 1) && Pow(radix1, f0 - f) > 0
      invariant a.Val() == v / Pow(radix1, f0 - f) && rem == (v % Pow(radix1, f0 - f) != 0)
      decreases f
    {
      var n := if f < perLimb then f else perLimb;
      PowLimb(radix1, n, perLimb);
      if n != n0 {
        b, bInv, shift := PowUiInv(radix1, n);
        n0 := n;
      }
      ghost var u := a.Val();
      var r := a.DivSmall(b, bInv, shift, Pow(radix1, n));
      rem := rem || r != 0;
      DivTurnPow(v, radix1, f0 - f, n);
      f := f - n;
    }
  }

  lemma DivTurnPow(v: nat, radix1: nat, i: nat, n: nat)
    requires Pow(radix1, i) > 0 && Pow(radix1, n) > 0
    ensures Pow(radix1, i + n) > 0 && v / Pow(radix1, i + n) == v / Pow(radix1, i) / Pow(radix1, n)
    ensures v % Pow(radix1, i + n) != 0 <==> v % Pow(radix1, i) != 0 || v / Pow(radix1, i) % Pow(radix1, n) != 0
  {
    PowAdd(radix1, i, n);
    hide Pow;
    var p, q := Pow(radix1, i), Pow(radix1, n);
    DivTwice(v, p, q);
    var x := v / p % q;
    if x != 0 {
      MulAtLeast(x, p);
      assert p * x == x * p;
    }
  }

  /** `mul_pow`: multiplies by `(radix1 * 2^radixShift)^f`, up to a power of two that the result
      reports. A division leaves the truncated quotient with a sticky lowest bit, and enough bits
      for rounding: two below the unit of 2^e for an integer result, `e` bits in all otherwise. */
  method MulPow(a: Bignum, radix1: nat, radixShift: nat, f: int, isInt: bool, e: int, perLimb: nat)
    returns (eOffset: int, ghost k: nat)
    requires a.Valid() && a.Val() > 0 && a.len + Need(f, e) <= a.tab.Length
    requires 0 < radix1 < BASE && perLimb >= 1 && Pow(radix1, perLimb) < BASE
    modifies a, a.tab
    ensures a.Valid() && a.len <= old(a.len) + Need(f, e)
    ensures eOffset == -f * radixShift + k
    ensures a.Val() == Sticky(Numerator(old(a.Val()), radix1, f) * Pow2(k), Denominator(radix1, f))
    ensures
      || (Denominator(radix1, f) == 1 && k == 0)
      || (if isInt then eOffset >= 2 + e else e >= 0 ==> a.Val() >= Pow2(e))
  {
    ghost var v := a.Val();
    eOffset, k := -f * radixShift, 0;
    NumberBits(v, radix1, f);
    if radix1 == 1 {
      return;
    }
    if f >= 0 {
      MulUp(a, radix1, f, perLimb);
      return;
    }
    eOffset, k := MulPowDown(a, radix1, -f, radixShift, isInt, e, perLimb);
  }

  lemma NumberBits(v: nat, radix1: nat, f: int)
    requires radix1 > 0
    ensures radix1 == 1 ==> Numerator(v, radix1, f) == v && Denominator(radix1, f) == 1
    ensures Pow2(0) == 1 && Sticky(Numerator(v, radix1, f) * Pow2(0), 1) == Numerator(v, radix1, f) && Sticky(v, 1) == v
  {
    if radix1 == 1 {
      PowOne(Abs(f));
    }
  }

  lemma {:induction false} PowOne(n: nat)
    ensures Pow(1, n) == 1
  {
    if n > 0 {
      PowOne(n - 1);
    }
  }

  function Max(a: int, b: int): int { if a < b then b else a }

  /** The branch of a negative exponent. */
  method MulPowDown(a: Bignum, radix1: nat, f: nat, radixShift: nat, isInt: bool, e: int, perLimb: nat)
    returns (eOffset: int, ghost k: nat)
    requires a.Valid() && a.Val() > 0 && a.len + Need(f, e) <= a.tab.Length && f > 0
    requires 1 < radix1 < BASE && perLimb >= 1 && Pow(radix1, perLimb) < BASE
    modifies a, a.tab
    ensures a.Valid() && a.len <= old(a.len) + Need(f, e)
    ensures eOffset == f * radixShift + k && Pow(radix1, f) > 0
    ensures a.Val() == Sticky(old(a.Val()) * Pow2(k), Pow(radix1, f))
    ensures if isInt then eOffset >= 2 + e else e >= 0 ==> a.Val() >= Pow2(e)
  {
    hide Bignum.Val;
    hide Pow;
    hide Pow2;
    ghost var v := a.Val();
    var l := (f + perLimb - 1) / perLimb;
    LimbCount(f, perLimb, l);
    eOffset := f * radixShift + l * LIMB_BITS;
    MulNonNegative(f, radixShift);
    var extraBits: nat;
    ghost var log: nat := 0;
    if !isInt {
      var fl := a.FloorLog2();
      log := fl;
      extraBits := Max(e - fl, 0);
    } else {
      extraBits := Max(2 + e - eOffset, 0);
    }
    eOffset := eOffset + extraBits;
    k := l * LIMB_BITS + extraBits;
    a.ShrRound(-(l * LIMB_BITS + extraBits), TowardZero);
    ghost var n := a.Val();
    var rem := DivDown(a, radix1, f, perLimb);
    if rem {
      a.SetLowBit();
    }
    if !isInt && e >= 0 {
      EnoughBits(v, n, log, e, extraBits, radix1, f, perLimb, l);
    }
  }

  /** A bound for the number of limbs the divisions take away. */
  lemma LimbCount(f: nat, perLimb: nat, l: nat)
    requires perLimb >= 1 && f >= 1 && l == (f + perLimb - 1) / perLimb
    ensures 1 <= l <= f && f <= l * perLimb
  {
    var q, r := DivParts(f + perLimb - 1, perLimb);
    if l > f {
      MulLe(f + 1, l, perLimb);
      assert (f + 1) * perLimb == f * perLimb + perLimb;
      MulAtLeast(perLimb, f);
    }
  }

  lemma {:induction false} PowBase(a: nat, b: nat, n: nat)
    requires a <= b
    ensures Pow(a, n) <= Pow(b, n)
  {
    if n > 0 {
      PowBase(a, b, n - 1);
      MulLe(Pow(a, n - 1), Pow(b, n - 1), a);
      MulLe(a, b, Pow(b, n - 1));
      assert a * Pow(a, n - 1) <= a * Pow(b, n - 1) <= b * Pow(b, n - 1);
    }
  }

  /** The power divided by has at most `l` limbs. */
  lemma PowFits(radix1: nat, f: nat, perLimb: nat, l: nat)
    requires radix1 > 0 && f <= l * perLimb && Pow(radix1, perLimb) < BASE
    ensures Pow(radix1, f) <= Pow2(l * LIMB_BITS)
  {
    PowMonotone(radix1, f, l * perLimb);
    PowPow(radix1, perLimb, l);
    Commute(l, perLimb);
    PowBase(Pow(radix1, perLimb), BASE, l);
    PowBIsPow2(l);
    Commute(l, LIMB_BITS);
  }

  lemma EnoughBits(v: nat, n: nat, log: nat, e: nat, extra: nat, radix1: nat, f: nat, perLimb: nat, l: nat)
    requires Pow2(log) <= v && n == v * Pow2(l * LIMB_BITS + extra) && log + extra >= e
    requires radix1 > 0 && f <= l * perLimb && Pow(radix1, perLimb) < BASE
    ensures Pow(radix1, f) > 0 && n / Pow(radix1, f) >= Pow2(e)
  {
    PowFits(radix1, f, perLimb, l);
    Pow2Add(l * LIMB_BITS, extra);
    Pow2Add(log, extra);
    PowMonotone(2, e, log + extra);
    hide Pow2;
    assert Pow(radix1, f) > 0;
    hide Pow;
    EnoughAlgebra(v, Pow2(extra), Pow2(l * LIMB_BITS), Pow(radix1, f), Pow2(e), Pow2(log));
    QuotientAtLeast(n, Pow(radix1, f), Pow2(e));
  }

  lemma EnoughAlgebra(v: nat, x: nat, p: nat, d: nat, t: nat, lo: nat)
    requires lo <= v && t <= lo * x && d <= p
    ensures v * (p * x) >= t * d
  {
    MulLe(lo, v, x);
    MulLe(t, v * x, p);
    MulLe(d, p, t);
    Commute(d, t);
    Commute(p, t);
    Commute(p, x);
    Assoc(v, x, p);
  }

  lemma QuotientAtLeast(n: nat, d: nat, q: nat)
    requires d > 0 && n >= q * d
    ensures n / d >= q
  {
    var x, r := DivParts(n, d);
    if x < q {
      MulLe(x + 1, q, d);
    }
  }

  // ----- correct rounding -----

  /** Room for every intermediate number. */
  function Capacity(e: int, radixShift: nat, f: int): nat {
    2 * Need(f, e) + Abs(e) + Abs(f * radixShift) + 8
  }

  /** `mul_pow_round`: `m * 2^e * (radix1 * 2^radixShift)^f` rounded to an integer, exactly as if computed
      without any intermediate loss. */
  method MulPowRound(tmp1: Bignum, m: int, e: int, radix1: nat, radixShift: nat, f: int, mode: Rounding, perLimb: nat)
    requires 0 < m < U64 && tmp1.tab.Length >= Capacity(e, radixShift, f)
    requires 0 < radix1 < BASE && perLimb >= 1 && Pow(radix1, perLimb) < BASE
    modifies tmp1, tmp1.tab
    ensures tmp1.Valid()
    ensures tmp1.Val() == RoundScaled(Numerator(m, radix1, f), Denominator(radix1, f), -(e + f * radixShift), mode)
    ensures RoundsTo(m as real * Two(e) * RealPow(Radix(radix1, radixShift), f), mode, tmp1.Val())
  {
    hide RoundsTo;
    hide RealPow;
    hide Radix;
    hide Two;
    hide Pow;
    hide Bignum.Val;
    hide Numerator;
    hide Denominator;
    hide RoundScaled;
    hide RoundQuotient;
    hide Sticky;
    tmp1.SetU64(m);
    var eOffset, k := MulPow(tmp1, radix1, radixShift, f, true, e, perLimb);
    ghost var n, d := Numerator(m, radix1, f), Denominator(radix1, f);
    ShiftRoundSticky(n * Pow2(k), d, -e + eOffset, mode);
    assert -e + eOffset == -(e + f * radixShift) + k;
    RoundScaledShift(n, d, -(e + f * radixShift), k, mode);
    tmp1.ShrRound(-e + eOffset, mode);
    ScaledBinary(m, e, radix1, radixShift, f);
    RoundedReal(n, d, -(e + f * radixShift), mode);
  }

  lemma SetLength(a: Bignum)
    requires a.Valid() && a.Val() < U64 && (a.Val() == 0 ==> a.len == 1)
    ensures a.len <= 2
  {
    if a.len > 2 {
      TopBound(a.tab[..a.len]);
      PowMonotone(BASE, 2, a.len - 1);
      TwoLimbs();
    }
  }

  lemma TwoLimbs()
    ensures Pow(BASE, 2) == U64
  {
    assert Pow(BASE, 2) == BASE * Pow(BASE, 1) == BASE * (BASE * Pow(BASE, 0));
  }

  /** `round_to_d`: the number `n / d * 2^-eOffset`, given as its truncation with a sticky lowest bit (at
      least 56 bits of it unless exact), rounded to a double's mantissa and exponent. */
  method RoundToD(a: Bignum, eOffset: int, mode: Rounding, ghost n: nat, ghost d: nat) returns (m: int, e: int)
    requires a.Valid() && (a.Val() == 0 ==> a.len == 1) && a.len + 4 <= a.tab.Length
    requires d > 0 && a.Val() == Sticky(n, d) && (d == 1 || a.Val() >= Pow2(55))
    modifies a, a.tab
    ensures m >= 0 && (n == 0 ==> m == 0) && (n > 0 ==> RoundedDouble(n, d, eOffset, mode, m, e))
  {
    hide *;
    StickyNone(n, d);
    if a.tab[0] == 0 && a.len == 1 {
      ZeroNumber(a);
      return 0, 0;
    }
    PositiveIsNot(a);
    m, e := RoundNonzero(a, eOffset, mode, n, d);
  }

  lemma ZeroNumber(a: Bignum)
    requires a.Valid() && a.tab[0] == 0 && a.len == 1
    ensures a.Val() == 0
  {
    assert a.tab[..a.len] == [0];
    ValueOne(0);
  }

  method RoundNonzero(a: Bignum, eOffset: int, mode: Rounding, ghost n: nat, ghost d: nat) returns (m: int, e: int)
    requires a.Valid() && a.Val() > 0 && a.len + 4 <= a.tab.Length
    requires d > 0 && a.Val() == Sticky(n, d) && (d == 1 || a.Val() >= Pow2(55))
    modifies a, a.tab
    ensures m >= 0 && RoundedDouble(n, d, eOffset, mode, m, e)
  {
    hide *;
    ghost var x := a.Val();
    var log := a.FloorLog2();
    e := log + 1 - eOffset;
    var prec := Precision(e);
    MantissaFacts(n, d, x, log, e, eOffset, mode);
    m := ShiftToMantissa(a, e + eOffset - prec, mode);
    ghost var r, E := m, e;
    Normalised(r, prec, E);
    m := m * Pow2(53 - prec);
    if m >= Pow2(53) {
      m := m / 2;
      e := e + 1;
    }
    Finish(n, d, eOffset, mode, r, prec, E, m, e);
  }

  method ShiftToMantissa(a: Bignum, shift: int, mode: Rounding) returns (m: int)
    requires a.Valid() && a.Val() > 0 && a.len + 4 <= a.tab.Length && shift >= -52
    requires ShiftRound(a.Val(), shift, mode) < U64
    modifies a, a.tab
    ensures m == ShiftRound(old(a.Val()), shift, mode)
  {
    ShiftRoundIs(a.Val(), shift, mode);
    hide Bignum.Val;
    hide Pow2;
    hide RoundQuotient;
    hide ShiftRound;
    a.ShrRound(shift, mode);
    SetLength(a);
    m := a.GetU64();
  }

  /** `prec`: 53 bits, or fewer below the normal range. */
  function Precision(e: int): int {
    if e < -1021 then 53 - (-1021 - e) else 53
  }

  lemma ShiftRoundIs(x: nat, s: int, mode: Rounding)
    ensures ShiftRound(x, s, mode) == if s <= 0 then x * Pow2(-s) else RoundQuotient(x, Pow2(s), mode)
  {
  }

  lemma MantissaFacts(n: nat, d: nat, x: nat, log: nat, e: int, eOffset: int, mode: Rounding)
    requires d > 0 && x == Sticky(n, d) && (d == 1 || x >= Pow2(55)) && Pow2(log) <= x < Pow2(log + 1)
    requires e == log + 1 - eOffset
    ensures var prec := Precision(e); var r := ShiftRound(x, e + eOffset - prec, mode);
      (r == RoundScaled(n, d, e + eOffset - prec, mode) && r < U64 && prec <= 53 && e + eOffset - prec >= log - 52
       && (if prec >= 1 then Pow2(prec - 1) <= r <= Pow2(prec) else r <= 1 && (prec < 0 ==> r == 0)))
    ensures InBinade(n, d, eOffset, e)
  {
    hide Sticky;
    hide Pow2;
    hide RoundScaled;
    hide ShiftRound;
    var prec := Precision(e);
    LogLarge(x, log, d);
    StickyBinade(n, d, log);
    RoundRange(x, log, prec, mode);
    ShiftRoundSticky(n, d, e + eOffset - prec, mode);
    SmallMantissa(ShiftRound(x, e + eOffset - prec, mode), prec);
    hide AtLeast;
  }

  lemma Normalised(r: nat, prec: int, E: int)
    requires prec == Precision(E)
    ensures prec <= 53 && r * Pow2(53 - prec) >= 0
  {
    MulNonNegative(r, Pow2(53 - prec));
  }

  lemma Finish(n: nat, d: nat, eOffset: int, mode: Rounding, r: nat, prec: int, E: int, m: int, e: int)
    requires d > 0 && InBinade(n, d, eOffset, E) && prec == Precision(E) <= 53
    requires r == RoundScaled(n, d, E + eOffset - prec, mode)
    requires if prec >= 1 then Pow2(prec - 1) <= r <= Pow2(prec) else r <= 1 && (prec < 0 ==> r == 0)
    requires var w := r * Pow2(53 - prec);
      w >= 0 && if w >= Pow2(53) then m == w / 2 && e == E + 1 else m == w && e == E
    ensures m >= 0 && RoundedDouble(n, d, eOffset, mode, m, e)
  {
    hide Pow2;
    hide RoundScaled;
    hide InBinade;
    QuantumIs(E);
    hide Quantum;
    Adjusted(r, prec, E, m, e);
    assert RoundedIn(n, d, eOffset, mode, m, e, E);
  }

  lemma QuantumIs(E: int)
    ensures Quantum(E) == E - Precision(E)
  {
  }

  lemma StickyNone(n: nat, d: nat)
    requires d > 0
    ensures Sticky(n, d) == 0 <==> n == 0
  {
    var q, r := DivParts(n, d);
    if n == 0 {
      DivUnique(0, d, 0, 0);
    }
  }

  lemma PositiveIsNot(a: Bignum)
    requires a.Valid() && (a.Val() == 0 ==> a.len == 1) && !(a.tab[0] == 0 && a.len == 1)
    ensures a.Val() > 0
  {
    if a.len == 1 {
      assert a.tab[..a.len] == [a.tab[0]];
      ValueOne(a.tab[0]);
    }
  }

  lemma LogLarge(x: nat, log: nat, d: nat)
    requires x < Pow2(log + 1) && (d == 1 || x >= Pow2(55))
    ensures d == 1 || log >= 55
  {
    if log < 55 {
      PowMonotone(2, log + 1, 55);
    }
  }

  lemma SmallMantissa(r: nat, prec: int)
    requires prec <= 53 && if prec >= 1 then r <= Pow2(prec) else r <= 1
    ensures r < U64
  {
    if prec >= 1 {
      PowMonotone(2, prec, 53);
    }
    PowMonotone(2, 53, 60);
    Pow2Add(28, 32);
    Pow2Limb();
    PowMonotone(2, 28, 32);
  }

  /** `mul_pow_round_to_d`: `a * (radix1 * 2^radixShift)^f` correctly rounded to a double's mantissa and
      exponent, subnormal results included: in the modes that round to nearest, no double is nearer. */
  method MulPowRoundToD(a: Bignum, radix1: nat, radixShift: nat, f: int, mode: Rounding, perLimb: nat)
    returns (m: int, e: int)
    requires a.Valid() && a.Val() > 0 && a.len + Need(f, 55) + 4 <= a.tab.Length
    requires 0 < radix1 < BASE && perLimb >= 1 && Pow(radix1, perLimb) < BASE
    modifies a, a.tab
    ensures m >= 0
    ensures RoundedDouble(Numerator(old(a.Val()), radix1, f), Denominator(radix1, f), -f * radixShift, mode, m, e)
    ensures mode != TowardZero ==> IsNearest(Scaled(old(a.Val()), radix1, radixShift, f), mode, m, e)
  {
    hide Scaled;
    hide Pow;
    hide Bignum.Val;
    hide Sticky;
    hide RoundedDouble;
    hide IsNearest;
    hide Exact;
    ghost var v := a.Val();
    ghost var n, d := Numerator(v, radix1, f), Denominator(radix1, f);
    NumeratorPositive(v, radix1, f);
    hide Numerator;
    hide Denominator;
    var eOffset, k := MulPow(a, radix1, radixShift, f, false, 55, perLimb);
    MulPositive(n, Pow2(k));
    StickyNone(n * Pow2(k), d);
    m, e := RoundToD(a, eOffset, mode, n * Pow2(k), d);
    RoundedDoubleShift(n, d, -f * radixShift, k, mode, m, e);
    NearestScaled(v, radix1, radixShift, f, mode, m, e);
  }

  lemma NearestScaled(v: nat, radix1: nat, radixShift: nat, f: int, mode: Rounding, m: nat, e: int)
    requires radix1 > 0
    requires RoundedDouble(Numerator(v, radix1, f), Denominator(radix1, f), -f * radixShift, mode, m, e)
    ensures mode != TowardZero ==> IsNearest(Scaled(v, radix1, radixShift, f), mode, m, e)
  {
    hide *;
    if mode != TowardZero {
      RoundedIsNearest(Numerator(v, radix1, f), Denominator(radix1, f), -f * radixShift, mode, m, e);
      ScaledNumber(v, radix1, radixShift, f);
    }
  }

  lemma NumeratorPositive(v: nat, radix1: nat, f: int)
    requires v > 0 && radix1 > 0
    ensures Numerator(v, radix1, f) > 0
  {
    if f >= 0 {
      MulPositive(v, Pow(radix1, f));
    }
  }
}
