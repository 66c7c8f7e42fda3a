/** Numbers `v * (radix1 * 2^radixShift)^f` (dtoa.c): the fraction and the power of two they are computed as, and what
    rounding them means, said with real numbers. */
module RadixNumbers {
  import opened Powers
  import opened FloatRounding
  import opened FloatNearest

  function Numerator(v: nat, radix1: nat, f: int): nat {
    if f >= 0 then v * Pow(radix1, f) else v
  }

  function Denominator(radix1: nat, f: int): (d: nat)
    requires radix1 > 0
    ensures d > 0
  {
    if f >= 0 then 1 else Pow(radix1, -f)
  }

  lemma TwoParts(k: int)
    ensures k >= 0 ==> Two(k) == Pow2(k) as real
    ensures k < 0 ==> Two(k) == 1.0 / Pow2(-k) as real
  {
  }

  lemma PositiveProduct(a: real, b: real)
    requires a > 0.0 && b > 0.0
    ensures a * b > 0.0
  {
  }

  // ----- The number read -----

  /** `x^f`, `f` of either sign. */
  function RealPow(x: real, f: int): (r: real)
    requires x > 0.0
    ensures r > 0.0
    decreases if f < 0 then -f else f
  {
    if f == 0 then 1.0
    else if f > 0 then
      PositiveProduct(x, RealPow(x, f - 1));
      x * RealPow(x, f - 1)
    else
      PositiveQuotient(RealPow(x, f + 1), x);
      RealPow(x, f + 1) / x
  }

  lemma PositiveQuotient(a: real, b: real)
    requires a > 0.0 && b > 0.0
    ensures a / b > 0.0
  {
    var q := a / b;
    assert q * b == a;
  }

  /** `radix1 * 2^radixShift`. */
  function Radix(radix1: nat, radixShift: nat): (x: real)
    requires radix1 > 0
    ensures x > 0.0
  {
    MulPositive(radix1, Pow2(radixShift));
    (radix1 * Pow2(radixShift)) as real
  }

  /** `v * (radix1 * 2^radixShift)^f`. */
  function Scaled(v: nat, radix1: nat, radixShift: nat, f: int): real
    requires radix1 > 0
  {
    v as real * RealPow(Radix(radix1, radixShift), f)
  }

  lemma ScaledIs(v: nat, radix1: nat, radixShift: nat, f: int)
    requires radix1 > 0
    ensures Scaled(v, radix1, radixShift, f) == v as real * RealPow(Radix(radix1, radixShift), f)
  {
    hide RealPow, Radix;
  }

  lemma RadixIs(radix1: nat, radixShift: nat)
    requires radix1 > 0
    ensures Radix(radix1, radixShift) == radix1 as real * Two(radixShift)
  {
    TwoParts(radixShift);
    Product(radix1, Pow2(radixShift));
    hide Two;
  }

  lemma TimesRadix(r: real, p: real, a: real, b: real)
    ensures (r * p) * (a * b) == (r * a) * (p * b)
  {
  }

  lemma DivideRadix(r: real, p: real, q: real, b: real)
    requires r > 0.0 && p > 0.0 && q > 0.0
    ensures r * p > 0.0 && r * q > 0.0 && (1.0 / q * (p * b)) / (r * p) == 1.0 / (r * q) * b
  {
    PositiveProduct(r, p);
    PositiveProduct(r, q);
    var u, w := 1.0 / q, 1.0 / (r * q);
    assert u * q == 1.0 && w * (r * q) == 1.0;
    SameInverse(u, w, r, q);
    assert (u * (p * b)) == (w * b) * (r * p) by { Spread4(u, w, r, p, b); }
    var y := (u * (p * b)) / (r * p);
    assert y * (r * p) == u * (p * b);
    Cancel(y, w * b, r * p);
  }

  lemma SameInverse(u: real, w: real, r: real, q: real)
    requires q > 0.0 && u * q == 1.0 && w * (r * q) == 1.0
    ensures u == w * r
  {
    assert (w * r) * q == w * (r * q);
    Cancel(u, w * r, q);
  }

  lemma Spread4(u: real, w: real, r: real, p: real, b: real)
    requires u == w * r
    ensures u * (p * b) == (w * b) * (r * p)
  {
    assert (w * r) * (p * b) == (w * b) * (r * p);
  }

  function Fraction(radix1: nat, f: int): real
    requires radix1 > 0
  {
    Numerator(1, radix1, f) as real / Denominator(radix1, f) as real
  }

  /** Two powers of two whose exponents differ by the shift. */
  lemma TwoTimes(f: int, s: int)
    ensures Two(f * s) == Two(s) * Two((f - 1) * s)
  {
    hide *;
    TwoAdd(s, (f - 1) * s);
    LessOnce(f, s);
  }

  lemma LessOnce(f: int, s: int)
    ensures s + (f - 1) * s == f * s
  {
  }

  lemma FractionUp(radix1: nat, f: int)
    requires radix1 > 0 && f > 0
    ensures Fraction(radix1, f) == radix1 as real * Fraction(radix1, f - 1)
  {
    Product(radix1, Pow(radix1, f - 1));
    FractionIs(radix1, f);
    FractionIs(radix1, f - 1);
    hide Pow, Numerator, Denominator;
  }

  lemma FractionDown(radix1: nat, f: int) returns (q: real)
    requires radix1 > 0 && f < 0
    ensures q > 0.0 && Fraction(radix1, f + 1) == 1.0 / q
    ensures radix1 as real * q > 0.0 && Fraction(radix1, f) == 1.0 / (radix1 as real * q)
  {
    q := Pow(radix1, -f - 1) as real;
    Product(radix1, Pow(radix1, -f - 1));
    FractionIs(radix1, f);
    FractionIs(radix1, f + 1);
    PositiveProduct(radix1 as real, q);
    hide Pow, Numerator, Denominator;
  }

  lemma PowerUp(radix1: nat, radixShift: nat, f: int)
    requires radix1 > 0 && f > 0
    requires RealPow(Radix(radix1, radixShift), f - 1) == Fraction(radix1, f - 1) * Two((f - 1) * radixShift)
    ensures RealPow(Radix(radix1, radixShift), f) == Fraction(radix1, f) * Two(f * radixShift)
  {
    hide *;
    RadixIs(radix1, radixShift);
    PowerIs(Radix(radix1, radixShift), f);
    TwoTimes(f, radixShift);
    FractionUp(radix1, f);
    UpStep(Radix(radix1, radixShift), radix1 as real, Two(radixShift), RealPow(Radix(radix1, radixShift), f - 1),
           Fraction(radix1, f - 1), Two((f - 1) * radixShift), Fraction(radix1, f), Two(f * radixShift));
  }

  lemma PowerDown(radix1: nat, radixShift: nat, f: int)
    requires radix1 > 0 && f < 0
    requires RealPow(Radix(radix1, radixShift), f + 1) == Fraction(radix1, f + 1) * Two((f + 1) * radixShift)
    ensures RealPow(Radix(radix1, radixShift), f) == Fraction(radix1, f) * Two(f * radixShift)
  {
    hide *;
    RadixIs(radix1, radixShift);
    PowerIs(Radix(radix1, radixShift), f);
    TwoTimes(f + 1, radixShift);
    var q := FractionDown(radix1, f);
    DownStep(Radix(radix1, radixShift), radix1 as real, Two(radixShift), RealPow(Radix(radix1, radixShift), f + 1),
             q, Two((f + 1) * radixShift), radix1 as real * q, Two(f * radixShift));
  }

  /** The power of the radix as a fraction and a power of two. */
  lemma {:induction false} RadixPower(radix1: nat, radixShift: nat, f: int)
    requires radix1 > 0
    ensures RealPow(Radix(radix1, radixShift), f) == Fraction(radix1, f) * Two(f * radixShift)
    decreases if f < 0 then -f else f
  {
    hide *;
    if f == 0 {
      PowerIs(Radix(radix1, radixShift), f);
      FractionIs(radix1, f);
      TwoParts(0);
      OneTwo();
    } else if f > 0 {
      RadixPower(radix1, radixShift, f - 1);
      PowerUp(radix1, radixShift, f);
    } else {
      RadixPower(radix1, radixShift, f + 1);
      PowerDown(radix1, radixShift, f);
    }
  }

  lemma UpStep(x: real, r: real, p: real, y: real, a: real, b: real, a2: real, b2: real)
    requires x == r * p && y == a * b && a2 == r * a && b2 == p * b
    ensures x * y == a2 * b2
  {
    TimesRadix(r, p, a, b);
  }

  lemma DownStep(x: real, r: real, p: real, y: real, q: real, b: real, q2: real, b2: real)
    requires r > 0.0 && p > 0.0 && q > 0.0 && x == r * p > 0.0 && y == 1.0 / q * b && q2 == r * q && b == p * b2
    ensures q2 > 0.0 && y / x == 1.0 / q2 * b2
  {
    DivideRadix(r, p, q, b2);
  }

  lemma OneTwo()
    ensures Pow2(0) == 1 && forall s: int {:trigger 0 * s} :: 0 * s == 0
  {
  }

  lemma PowerIs(x: real, f: int)
    requires x > 0.0
    ensures f == 0 ==> RealPow(x, f) == 1.0
    ensures f > 0 ==> RealPow(x, f) == x * RealPow(x, f - 1)
    ensures f < 0 ==> RealPow(x, f) == RealPow(x, f + 1) / x
  {
  }

  lemma FractionIs(radix1: nat, f: int)
    requires radix1 > 0
    ensures f >= 0 ==> Fraction(radix1, f) == Pow(radix1, f) as real
    ensures f < 0 ==> Fraction(radix1, f) == 1.0 / Pow(radix1, -f) as real
    ensures f == 0 ==> Pow(radix1, f) == 1
    ensures f > 0 ==> Pow(radix1, f) == radix1 * Pow(radix1, f - 1)
    ensures f < 0 ==> Pow(radix1, -f) == radix1 * Pow(radix1, -f - 1)
    ensures f < 0 ==> Pow(radix1, -f - 1) > 0
  {
  }

  lemma ScaledNumber(v: nat, radix1: nat, radixShift: nat, f: int)
    requires radix1 > 0
    ensures Exact(Numerator(v, radix1, f), Denominator(radix1, f), -f * radixShift)
         == Scaled(v, radix1, radixShift, f)
  {
    hide *;
    ScaledIs(v, radix1, radixShift, f);
    RadixPower(radix1, radixShift, f);
    ExactIs(Numerator(v, radix1, f), Denominator(radix1, f), -f * radixShift);
    Negated(f, radixShift);
    NumeratorTimes(v, radix1, f);
    var n, d := Numerator(1, radix1, f), Denominator(radix1, f);
    Product(v, n);
    FractionOf(radix1, f);
    TimesFraction(v as real, n as real, d as real, Two(f * radixShift));
  }

  lemma FractionOf(radix1: nat, f: int)
    requires radix1 > 0
    ensures Fraction(radix1, f) == Numerator(1, radix1, f) as real / Denominator(radix1, f) as real
  {
    hide Numerator, Denominator;
  }

  lemma Negated(f: int, s: int)
    ensures -(-f * s) == f * s
  {
  }

  lemma NumeratorTimes(v: nat, radix1: nat, f: int)
    ensures Numerator(v, radix1, f) == v * Numerator(1, radix1, f)
  {
    hide Pow;
  }

  lemma TimesFraction(v: real, n: real, d: real, t: real)
    requires d > 0.0
    ensures (v * n) / d * t == v * (n / d * t)
  {
    var q := n / d;
    assert q * d == n;
    var y := (v * n) / d;
    assert y * d == v * n;
    assert (v * q) * d == v * (q * d);
    Cancel(y, v * q, d);
    assert (v * q) * t == v * (q * t);
  }

  // ----- Rounding to an integer -----

  /** `r` is at least as near to `x` as `j`; of two equally near the even one is taken, or the greater. */
  predicate AsNearInteger(x: real, mode: Rounding, r: nat, j: nat) {
    var mine, other := Error(x, r as real), Error(x, j as real);
    mine <= other && (mine == other && j != r ==> if mode == NearestEven then r % 2 == 0 else j < r)
  }

  /** What rounding a number to an integer means. */
  ghost predicate RoundsTo(x: real, mode: Rounding, r: nat) {
    if mode == TowardZero then r as real <= x < (r + 1) as real
    else forall j: nat :: AsNearInteger(x, mode, r, j)
  }

  /** The exact number in units of `1 / D`. */
  lemma WholeUnits(n: nat, d: nat, s: int)
    requires d > 0
    ensures d * Up(s) > 0 && Exact(n, d, s) * (d * Up(s)) as real == (n * Up(-s)) as real
  {
    hide *;
    MulPositive(d, Up(s));
    ExactIn(n, d, s, 0);
    TwoParts(0);
    OneTwo();
    assert s + 0 == s;
  }

  lemma IntegerError(x: real, N: nat, D: nat, y: nat)
    requires D > 0 && x * D as real == N as real
    ensures Error(x, y as real) * D as real == Distance(N, y * D) as real
  {
    GapAlgebra(x, y as real, N, D, 1, y, 1.0);
  }

  lemma RoundedNear(x: real, N: nat, D: nat, mode: Rounding, j: nat)
    requires D > 0 && x * D as real == N as real && mode != TowardZero
    ensures AsNearInteger(x, mode, RoundQuotient(N, D, mode), j)
  {
    hide *;
    var r := RoundQuotient(N, D, mode);
    RoundIsNearest(N, D, mode, j);
    IntegerError(x, N, D, r);
    IntegerError(x, N, D, j);
    MeasuresIs(Error(x, r as real), Distance(N, r * D), D as real, 1.0);
    MeasuresIs(Error(x, j as real), Distance(N, j * D), D as real, 1.0);
    SameOrder(Error(x, r as real), Error(x, j as real), Distance(N, r * D), Distance(N, j * D), D as real, 1.0);
    AsNearIntegerIs(x, mode, r, j);
  }

  lemma AsNearIntegerIs(x: real, mode: Rounding, r: nat, j: nat)
    ensures AsNearInteger(x, mode, r, j)
        <==> && Error(x, r as real) <= Error(x, j as real)
             && (Error(x, r as real) == Error(x, j as real) && j != r
                 ==> if mode == NearestEven then r % 2 == 0 else j < r)
  {
    hide Error;
  }

  lemma RoundedDown(x: real, N: nat, D: nat)
    requires D > 0 && x * D as real == N as real
    ensures var r := RoundQuotient(N, D, TowardZero); r as real <= x < (r + 1) as real
  {
    hide *;
    var r := RoundQuotient(N, D, TowardZero);
    RoundIsNearest(N, D, TowardZero, 0);
    BelowInteger(x, N, D, r);
    BelowInteger(x, N, D, r + 1);
  }

  lemma BelowInteger(x: real, N: nat, D: nat, r: nat)
    requires D > 0 && x * D as real == N as real
    ensures x < r as real <==> N < r * D
  {
    Product(r, D);
    Ordered(x, r as real, D as real);
  }

  /** Rounding the scaled fraction rounds the exact number. */
  lemma RoundedReal(n: nat, d: nat, s: int, mode: Rounding)
    requires d > 0
    ensures RoundsTo(Exact(n, d, s), mode, RoundScaled(n, d, s, mode))
  {
    hide *;
    var x, N, D := Exact(n, d, s), n * Up(-s), d * Up(s);
    WholeUnits(n, d, s);
    RoundScaledIs(n, d, s, mode);
    var r := RoundScaled(n, d, s, mode);
    if mode == TowardZero {
      RoundedDown(x, N, D);
    } else {
      forall j: nat ensures AsNearInteger(x, mode, r, j) {
        RoundedNear(x, N, D, mode, j);
      }
    }
    RoundsToIs(x, mode, r);
  }

  lemma RoundScaledIs(n: nat, d: nat, s: int, mode: Rounding)
    requires d > 0 && d * Up(s) > 0
    ensures RoundScaled(n, d, s, mode) == RoundQuotient(n * Up(-s), d * Up(s), mode)
  {
    hide RoundQuotient, Up;
  }

  lemma RoundsToIs(x: real, mode: Rounding, r: nat)
    ensures RoundsTo(x, mode, r)
        <==> if mode == TowardZero then r as real <= x < (r + 1) as real
             else forall j: nat :: AsNearInteger(x, mode, r, j)
  {
    hide AsNearInteger;
  }

  /** The same with a power of two in front. */
  lemma ScaledBinary(m: nat, e: int, radix1: nat, radixShift: nat, f: int)
    requires radix1 > 0
    ensures Exact(Numerator(m, radix1, f), Denominator(radix1, f), -(e + f * radixShift))
         == m as real * Two(e) * RealPow(Radix(radix1, radixShift), f)
  {
    hide *;
    var n, d := Numerator(m, radix1, f), Denominator(radix1, f);
    ScaledNumber(m, radix1, radixShift, f);
    ScaledIs(m, radix1, radixShift, f);
    ExactIs(n, d, -(e + f * radixShift));
    ExactIs(n, d, -f * radixShift);
    Negated(f, radixShift);
    TwoAdd(e, f * radixShift);
    assert - -(e + f * radixShift) == e + f * radixShift;
    Rearranged(n as real / d as real, Two(e), Two(f * radixShift), m as real, RealPow(Radix(radix1, radixShift), f));
  }

  lemma Rearranged(q: real, a: real, b: real, m: real, p: real)
    requires q * b == m * p
    ensures q * (a * b) == m * a * p
  {
    assert q * (a * b) == (q * b) * a;
    assert (m * p) * a == m * a * p;
  }
}
