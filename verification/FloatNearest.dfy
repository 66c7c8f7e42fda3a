/** What a correctly rounded mantissa and exponent are worth: the double nearest to the exact number, with ties to
    the even one. Powers of two with negative exponents are real numbers here. */
module FloatNearest {
  import opened Powers
  import opened FloatRounding

  /** `2^k`. */
  function Two(k: int): (t: real)
    ensures t > 0.0
  {
    Positive(Up(k), Up(-k));
    Up(k) as real / Up(-k) as real
  }

  /** `m * 2^k`. */
  function Value(m: nat, k: int): real {
    m as real * Two(k)
  }

  /** `n / d * 2^-eOffset`. */
  function Exact(n: nat, d: nat, eOffset: int): real
    requires d > 0
  {
    n as real / d as real * Two(-eOffset)
  }

  function Error(x: real, y: real): real {
    if x < y then y - x else x - y
  }

  /** A mantissa of 53 bits, of which those below the least subnormal are zero. */
  predicate IsDouble(m: nat, e: int) {
    m < Pow2(53) && (e - 53 >= SUBNORMAL_EXPONENT || m % Pow2(SUBNORMAL_EXPONENT - (e - 53)) == 0)
  }

  /** The last bit a double has room for is zero. */
  predicate IsEven(m: nat, e: int) {
    if e - 53 >= SUBNORMAL_EXPONENT then m % 2 == 0 else m % Pow2(SUBNORMAL_EXPONENT - (e - 53) + 1) == 0
  }

  /** `m * 2^(e-53)` is at least as near to `x` as `m2 * 2^k2`, and even when the two are equally near. */
  predicate AsNear(x: real, mode: Rounding, m: nat, e: int, m2: nat, k2: int) {
    var mine, other := Error(x, Value(m, e - 53)), Error(x, Value(m2, k2));
    && mine <= other
    && (mode == NearestEven && mine == other && Value(m, e - 53) != Value(m2, k2) ==> IsEven(m, e))
  }

  /** `m * 2^(e-53)` is a double nearest to `x`, of all with exponents not below the subnormal one. */
  ghost predicate IsNearest(x: real, mode: Rounding, m: nat, e: int) {
    && IsDouble(m, e)
    && forall m2: nat, k2: int :: m2 < Pow2(53) && k2 >= SUBNORMAL_EXPONENT ==> AsNear(x, mode, m, e, m2, k2)
  }

  lemma Positive(a: nat, b: nat)
    requires a > 0 && b > 0
    ensures a as real / b as real > 0.0
  {
    var q := a as real / b as real;
    assert q * b as real == a as real;
  }

  // ----- powers of two as reals -----

  lemma Opposite(a: int, b: int)
    requires a >= 0 && b >= 0
    ensures Up(a) == Pow2(a) && Up(-a) == 1 && Up(-b) == 1 && Up(b) == Pow2(b)
    ensures Up(a + b) == Pow2(a) * Pow2(b) && Up(-(a + b)) == 1
  {
    Pow2Add(a, b);
    assert Pow2(0) == 1;
  }

  lemma UpBalance(a: int, b: int)
    ensures Up(a) * Up(b) * Up(-(a + b)) == Up(a + b) * Up(-a) * Up(-b)
  {
    hide Up;
    hide Pow2;
    if a >= 0 && b >= 0 {
      Opposite(a, b);
    } else if a < 0 && b < 0 {
      Opposite(-a, -b);
      assert -a + -b == -(a + b);
    } else if a >= 0 {
      if a + b >= 0 {
        Opposite(a + b, -b);
        Commute(Pow2(a + b), Pow2(-b));
      } else {
        Opposite(-(a + b), a);
        assert -(a + b) + a == -b;
        Commute(Pow2(-(a + b)), Pow2(a));
      }
    } else {
      if a + b >= 0 {
        Opposite(a + b, -a);
        assert a + b + -a == b;
        Commute(Pow2(a + b), Pow2(-a));
      } else {
        Opposite(-(a + b), b);
        assert -(a + b) + b == -a;
        Commute(Pow2(-(a + b)), Pow2(b));
      }
    }
  }

  lemma TwoAdd(a: int, b: int)
    ensures Two(a + b) == Two(a) * Two(b)
  {
    UpBalance(a, b);
    TwoIs(a);
    TwoIs(b);
    TwoIs(a + b);
    hide *;
    Fractions(Up(a), Up(-a), Up(b), Up(-b), Up(a + b), Up(-(a + b)), Two(a), Two(b), Two(a + b));
  }

  lemma TwoIs(k: int)
    ensures Up(-k) > 0 && Two(k) * Up(-k) as real == Up(k) as real
  {
  }

  lemma Fractions(a: nat, a': nat, b: nat, b': nat, c: nat, c': nat, x: real, y: real, z: real)
    requires a' > 0 && b' > 0 && c' > 0 && a * b * c' == c * a' * b'
    requires x * a' as real == a as real && y * b' as real == b as real && z * c' as real == c as real
    ensures z == x * y
  {
    var A, B, C := a' as real, b' as real, c' as real;
    assert (a * b * c') as real == (x * A) * (y * B) * C;
    assert (c * a' * b') as real == (z * C) * A * B;
    var P := A * B * C;
    assert P > 0.0;
    assert (x * A) * (y * B) * C == (x * y) * P && (z * C) * A * B == z * P;
    Cancel(x * y, z, P);
  }

  lemma Cancel(x: real, y: real, p: real)
    requires p > 0.0 && x * p == y * p
    ensures x == y
  {
  }

  // ----- the gap is the error, scaled -----

  /** `n / d * 2^-eOffset` in units of `2^K`. */
  lemma ExactIn(n: nat, d: nat, eOffset: int, K: int)
    requires d > 0
    ensures var s := eOffset + K;
      Exact(n, d, eOffset) * (d * Up(s)) as real == (n * Up(-s)) as real * Two(K)
  {
    hide *;
    var s := eOffset + K;
    TwoAdd(K, -s);
    assert K + -s == -eOffset;
    TwoIs(-s);
    assert - -s == s;
    var q := Quotient(n, d);
    ExactIs(n, d, eOffset);
    ExactAlgebra(q, n, d, Two(-s), Up(s), Up(-s), Two(K));
  }

  lemma Quotient(n: nat, d: nat) returns (q: real)
    requires d > 0
    ensures q == n as real / d as real && q * d as real == n as real
  {
    q := n as real / d as real;
  }

  lemma ExactIs(n: nat, d: nat, eOffset: int)
    requires d > 0
    ensures Exact(n, d, eOffset) == n as real / d as real * Two(-eOffset)
  {
    hide Two;
  }

  lemma ExactAlgebra(q: real, n: nat, d: nat, t: real, u: nat, v: nat, k: real)
    requires q * d as real == n as real && t * u as real == v as real
    ensures q * (k * t) * (d * u) as real == (n * v) as real * k
  {
    var D, U := d as real, u as real;
    Product(d, u);
    Product(n, v);
    assert q * (k * t) * (D * U) == (q * D) * (t * U) * k;
  }

  lemma Product(a: nat, b: nat)
    ensures (a * b) as real == a as real * b as real
  {
  }

  /** `v` is `y` units of `2^K / scale`. */
  predicate InUnits(v: real, y: nat, K: int, scale: nat) {
    v * scale as real == y as real * Two(K)
  }

  /** What an error is multiplied by to give the gap times `2^K`. */
  function Unit(d: nat, s: int, scale: nat): (p: real)
    requires d > 0 && scale > 0
    ensures p > 0.0
  {
    MulPositive(d, Up(s));
    MulPositive(d * Up(s), scale);
    (d * Up(s) * scale) as real
  }

  predicate Measures(error: real, gap: nat, p: real, t: real) {
    error * p == gap as real * t
  }

  lemma UnitIs(d: nat, s: int, scale: nat)
    requires d > 0 && scale > 0
    ensures Unit(d, s, scale) == (d * Up(s) * scale) as real
  {
    hide Up;
  }

  lemma InUnitsIs(v: real, y: nat, K: int, scale: nat)
    ensures InUnits(v, y, K, scale) <==> v * scale as real == y as real * Two(K)
  {
    hide Two;
  }

  lemma MeasuresIs(error: real, gap: nat, p: real, t: real)
    ensures Measures(error, gap, p, t) <==> error * p == gap as real * t
  {
  }

  /** The error of `y * 2^K / scale`. */
  lemma ErrorIsGap(n: nat, d: nat, eOffset: int, K: int, y: nat, scale: nat, v: real)
    requires d > 0 && scale > 0 && InUnits(v, y, K, scale)
    ensures var s := eOffset + K;
      Measures(Error(Exact(n, d, eOffset), v), Gap(n, d, s, y, scale), Unit(d, s, scale), Two(K))
  {
    hide *;
    var s := eOffset + K;
    var D := d * Up(s);
    MulPositive(d, Up(s));
    InUnitsIs(v, y, K, scale);
    UnitIs(d, s, scale);
    MeasuresIs(Error(Exact(n, d, eOffset), v), Gap(n, d, s, y, scale), Unit(d, s, scale), Two(K));
    ExactIn(n, d, eOffset, K);
    GapIs(n, d, s, y, scale);
    GapAlgebra(Exact(n, d, eOffset), v, n * Up(-s), D, scale, y, Two(K));
  }

  lemma GapIs(n: nat, d: nat, s: int, y: nat, scale: nat)
    ensures Gap(n, d, s, y, scale) == Distance(n * Up(-s) * scale, y * (d * Up(s)))
  {
    hide Up;
  }

  lemma GapAlgebra(x: real, v: real, N: nat, D: nat, scale: nat, y: nat, t: real)
    requires D > 0 && scale > 0 && t > 0.0
    requires x * D as real == N as real * t && v * scale as real == y as real * t
    ensures Error(x, v) * (D * scale) as real == Distance(N * scale, y * D) as real * t
  {
    var P := (D * scale) as real;
    Product(D, scale);
    Product(N, scale);
    Product(y, D);
    MulPositive(D, scale);
    Spread(x, D as real, scale as real, N as real, t);
    Spread(v, scale as real, D as real, y as real, t);
    Ordered(x, v, P);
    Ordered((N * scale) as real, (y * D) as real, t);
    assert (v - x) * P == v * P - x * P && (x - v) * P == x * P - v * P;
  }

  lemma Spread(x: real, a: real, b: real, c: real, t: real)
    requires x * a == c * t
    ensures x * (a * b) == (c * b) * t && x * (b * a) == (c * b) * t
  {
    assert x * (a * b) == (x * a) * b;
    assert (c * t) * b == (c * b) * t;
  }

  lemma Ordered(x: real, y: real, p: real)
    requires p > 0.0
    ensures x < y <==> x * p < y * p
    ensures (y - x) * p == y * p - x * p && (x - y) * p == x * p - y * p
  {
  }

  /** Gaps on the same scale compare like the errors. */
  lemma SameOrder(a: real, b: real, g: nat, h: nat, p: real, t: real)
    requires p > 0.0 && t > 0.0 && Measures(a, g, p, t) && Measures(b, h, p, t)
    ensures (a <= b <==> g <= h) && (a == b <==> g == h)
  {
    Ordered(a, b, p);
    Ordered(b, a, p);
    Ordered(g as real, h as real, t);
    Ordered(h as real, g as real, t);
  }

  // ----- the rounded number -----

  /** `m * 2^k` in units of `2^K / scale`. */
  lemma ValueIn(m: nat, k: int, K: int)
    ensures InUnits(Value(m, k), m * Up(k - K), K, Up(K - k))
  {
    hide *;
    TwoAdd(K, k - K);
    assert K + (k - K) == k;
    TwoIs(k - K);
    assert -(k - K) == K - k;
    ValueIs(m, k);
    ValueAlgebra(m, Two(K), Two(k - K), Up(K - k), Up(k - K));
    InUnitsIs(Value(m, k), m * Up(k - K), K, Up(K - k));
  }

  lemma ValueIs(m: nat, k: int)
    ensures Value(m, k) == m as real * Two(k)
  {
    hide Two;
  }

  lemma ValueAlgebra(m: nat, t: real, u: real, a: nat, b: nat)
    requires u * a as real == b as real
    ensures m as real * (t * u) * a as real == (m * b) as real * t
  {
    var M, A := m as real, a as real;
    Product(m, b);
    assert M * (t * u) * A == M * (u * A) * t;
  }

  /** The rounded mantissa is worth `r * 2^K`. */
  lemma ValueOf(m: nat, e: int, r: nat, K: int)
    requires m * Up(e - 53 - K) == r * Up(K - (e - 53))
    ensures Value(m, e - 53) == r as real * Two(K)
  {
    ValueIn(m, e - 53, K);
    var u := Up(K - (e - 53)) as real;
    assert e - 53 - K == (e - 53) - K;
    hide Up;
    hide Two;
    assert (r as real * Two(K)) * u == (r as real * u) * Two(K);
    Cancel(Value(m, e - 53), r as real * Two(K), u);
  }

  lemma ScaledUp(v: real, r: nat, scale: nat, mine: nat, t: real)
    requires v == r as real * t && mine == r * scale
    ensures v * scale as real == mine as real * t
  {
    Product(r, scale);
  }

  /** No mantissa above 2^53 comes out of the binade. */
  lemma RoundedAtMost(n: nat, d: nat, eOffset: int, E: int, mode: Rounding)
    requires d > 0 && mode != TowardZero && InBinade(n, d, eOffset, E)
    ensures RoundScaled(n, d, eOffset + Quantum(E), mode) <= Pow2(53)
  {
    var s := eOffset + Quantum(E);
    var r := RoundScaled(n, d, s, mode);
    BelowTop(n, d, eOffset, E);
    NearestMultiple(n, d, s, mode, Pow2(53));
    hide Pow2;
    hide RoundScaled;
    MulPositive(d, Up(s));
    GapAbove(n * Up(-s), d * Up(s), r, Pow2(53));
  }

  lemma GapAbove(N: nat, D: nat, r: nat, top: nat)
    requires D > 0 && N < top * D && Distance(N * 1, r * D) <= Distance(N * 1, top * D)
    ensures r <= top
  {
    if r > top {
      MulLt(top, r, D);
    }
  }

  /** The number is below 2^53 quanta. */
  lemma BelowTop(n: nat, d: nat, eOffset: int, E: int)
    requires d > 0 && InBinade(n, d, eOffset, E)
    ensures var s := eOffset + Quantum(E); n * Up(-s) < Pow2(53) * (d * Up(s))
  {
    var s := eOffset + Quantum(E);
    if AtLeast(n, d, s + 53) {
      AtLeastDown(n, d, E + eOffset, s + 53);
      assert false;
    }
    UpSplit(s, 53);
    hide Pow2;
    hide Up;
    assert -s - 53 == -(s + 53);
    TopAlgebra(n, d, Up(-s), Up(s), Up(-(s + 53)), Up(s + 53), Pow2(53));
  }

  lemma TopAlgebra(n: int, d: int, a: int, b: int, a1: int, b1: int, p: int)
    requires n >= 0 && d >= 0 && a > 0 && b > 0 && a1 > 0 && b1 > 0 && p > 0 && n * a1 < d * b1
    requires
      || (a1 == 1 && b1 == b * p && a == 1)
      || (b1 == 1 && a == a1 * p && b == 1)
      || (b == 1 && a1 == 1 && b1 * a == p)
    ensures n * a < p * (d * b)
  {
    if a1 == 1 && b1 == b * p && a == 1 {
      assert d * (b * p) == p * (d * b);
    } else if b1 == 1 && a == a1 * p && b == 1 {
      MulLt(n * a1, d, p);
      assert n * (a1 * p) == (n * a1) * p && p * (d * 1) == d * p;
    } else {
      MulLt(n, d * b1, a);
      assert (d * b1) * a == p * d by { Assoc(d, b1, a); Commute(d, p); }
    }
  }

  lemma Multiple(q: nat, p: nat)
    requires p > 0
    ensures (q * p) % p == 0
  {
    DivUnique(q * p, p, q, 0);
  }

  /** The mantissa fits, its bits below the least subnormal are zero, and it is even when the rounded number is. */
  lemma Fits(m: nat, e: int, r: nat, K: int)
    requires K >= SUBNORMAL_EXPONENT && r <= Pow2(53) && (m == 0 || Pow2(52) <= m < Pow2(53))
    requires m * Up(e - 53 - K) == r * Up(K - (e - 53))
    ensures IsDouble(m, e) && (r % 2 == 0 ==> IsEven(m, e))
  {
    var k := e - 53;
    if m == 0 {
      Multiple(0, 1);
    } else if k > K {
      Carried(m, r, k - K);
    } else if k >= SUBNORMAL_EXPONENT {
      if k < K {
        Pow2Step(K - k - 1);
        TwiceSomething(m, r, Pow2(K - k - 1));
      }
    } else {
      Pow2Add(K - SUBNORMAL_EXPONENT, SUBNORMAL_EXPONENT - k);
      Pow2Step(SUBNORMAL_EXPONENT - k);
      hide Pow2;
      LowBits(m, r, Pow2(K - SUBNORMAL_EXPONENT), Pow2(SUBNORMAL_EXPONENT - k));
    }
  }

  lemma Carried(m: nat, r: nat, j: nat)
    requires j > 0 && Pow2(52) <= m && m * Pow2(j) == r <= Pow2(53)
    ensures m == Pow2(52) && m % 2 == 0
  {
    hide *;
    Pow2Step(52);
    Pow2Step(51);
    Pow2Step(j - 1);
    HalfAtMost(m, Pow2(j - 1), Pow2(51));
  }

  lemma HalfAtMost(m: nat, h: nat, p: nat)
    requires h > 0 && 2 * p <= m && m * (2 * h) <= 4 * p
    ensures m == 2 * p
  {
    MulAtLeast(h, m);
    DoubleOut(m, h);
    Commute(m, h);
  }

  lemma TwiceSomething(m: nat, r: nat, h: nat)
    requires m == r * (2 * h)
    ensures m % 2 == 0
  {
    assert m == 2 * (r * h);
  }

  lemma LowBits(m: nat, r: nat, a: nat, b: nat)
    requires b > 0 && m == r * (a * b)
    ensures m % b == 0 && (r % 2 == 0 ==> m % (2 * b) == 0)
  {
    assert m == (r * a) * b by { Assoc(r, a, b); }
    Multiple(r * a, b);
    if r % 2 == 0 {
      var h := r / 2;
      assert m == (h * a) * (2 * b) by { Regroup(h, a, b); }
      Multiple(h * a, 2 * b);
    }
  }

  lemma Regroup(h: int, a: int, b: int)
    ensures (2 * h) * (a * b) == (h * a) * (2 * b)
  {
    assert (2 * h) * (a * b) == 2 * (h * (a * b));
    assert h * (a * b) == (h * a) * b by { Assoc(h, a, b); }
    assert (h * a) * (2 * b) == 2 * ((h * a) * b);
  }

  /** The errors of two numbers compare like their gaps. */
  lemma Compared(x: real, mode: Rounding, m: nat, e: int, m2: nat, k2: int, mine: nat, other: nat, even: bool,
                 g: nat, h: nat, p: real, t: real)
    requires p > 0.0 && t > 0.0 && g <= h
    requires Measures(Error(x, Value(m, e - 53)), g, p, t) && Measures(Error(x, Value(m2, k2)), h, p, t)
    requires mine == other ==> Value(m, e - 53) == Value(m2, k2)
    requires (mode == NearestEven && mine != other && g == h ==> even) && (even ==> IsEven(m, e))
    ensures AsNear(x, mode, m, e, m2, k2)
  {
    hide *;
    SameOrder(Error(x, Value(m, e - 53)), Error(x, Value(m2, k2)), g, h, p, t);
    AsNearIs(x, mode, m, e, m2, k2);
  }

  /** The rounded number in units of `2^K / scale`. */
  lemma MineIn(n: nat, d: nat, eOffset: int, mode: Rounding, m: nat, e: int, E: int, scale: nat, mine: nat)
    requires d > 0 && RoundedIn(n, d, eOffset, mode, m, e, E)
    requires mine == RoundScaled(n, d, eOffset + Quantum(E), mode) * scale
    ensures InUnits(Value(m, e - 53), mine, Quantum(E), scale)
  {
    hide *;
    var K := Quantum(E);
    var r := RoundScaled(n, d, eOffset + K, mode);
    RoundedInIs(n, d, eOffset, mode, m, e, E);
    ValueOf(m, e, r, K);
    ScaledUp(Value(m, e - 53), r, scale, mine, Two(K));
    InUnitsIs(Value(m, e - 53), mine, K, scale);
  }

  /** `NearestDouble`, with the two numbers compared given. */
  lemma GapsCompare(n: nat, d: nat, eOffset: int, E: int, mode: Rounding, m2: nat, k2: int, scale: nat, mine: nat,
                    other: nat)
    requires d > 0 && mode != TowardZero && InBinade(n, d, eOffset, E)
    requires m2 < Pow2(53) && k2 >= SUBNORMAL_EXPONENT && scale == Up(Quantum(E) - k2)
    requires mine == RoundScaled(n, d, eOffset + Quantum(E), mode) * scale && other == m2 * Up(k2 - Quantum(E))
    ensures var s := eOffset + Quantum(E);
      && Gap(n, d, s, mine, scale) <= Gap(n, d, s, other, scale)
      && (mode == NearestEven && mine != other && Gap(n, d, s, mine, scale) == Gap(n, d, s, other, scale)
          ==> RoundScaled(n, d, s, mode) % 2 == 0)
  {
    hide *;
    NearestDouble(n, d, eOffset, E, mode, m2, k2);
  }

  lemma Natural(a: nat, b: nat) returns (c: nat)
    ensures c == a * b
  {
    c := a * b;
  }

  lemma OtherIn(m: nat, k: int, K: int, scale: nat, other: nat)
    requires scale == Up(K - k) && other == m * Up(k - K)
    ensures InUnits(Value(m, k), other, K, scale)
  {
    hide *;
    ValueIn(m, k, K);
  }

  lemma SameValue(v: real, w: real, y: nat, z: nat, K: int, scale: nat)
    requires scale > 0 && InUnits(v, y, K, scale) && InUnits(w, z, K, scale)
    ensures y == z ==> v == w
  {
    hide *;
    if y == z {
      InUnitsIs(v, y, K, scale);
      InUnitsIs(w, y, K, scale);
      var p := scale as real;
      assert v * p == y as real * Two(K) == w * p;
      Cancel(v, w, p);
    }
  }

  /** One rival at a time. */
  lemma NearestPair(n: nat, d: nat, eOffset: int, mode: Rounding, m: nat, e: int, E: int, m2: nat, k2: int)
    requires d > 0 && mode != TowardZero && InBinade(n, d, eOffset, E) && RoundedIn(n, d, eOffset, mode, m, e, E)
    requires IsDouble(m, e) && (RoundScaled(n, d, eOffset + Quantum(E), mode) % 2 == 0 ==> IsEven(m, e))
    requires m2 < Pow2(53) && k2 >= SUBNORMAL_EXPONENT
    ensures AsNear(Exact(n, d, eOffset), mode, m, e, m2, k2)
  {
    hide *;
    var K := Quantum(E);
    var s := eOffset + K;
    var r := RoundScaled(n, d, s, mode);
    var scale, x := Up(K - k2), Exact(n, d, eOffset);
    var mine := Natural(r, scale);
    var other := Natural(m2, Up(k2 - K));
    MineIn(n, d, eOffset, mode, m, e, E, scale, mine);
    OtherIn(m2, k2, K, scale, other);
    GapsCompare(n, d, eOffset, E, mode, m2, k2, scale, mine, other);
    ErrorIsGap(n, d, eOffset, K, mine, scale, Value(m, e - 53));
    ErrorIsGap(n, d, eOffset, K, other, scale, Value(m2, k2));
    SameValue(Value(m, e - 53), Value(m2, k2), mine, other, K, scale);
    Compared(x, mode, m, e, m2, k2, mine, other, r % 2 == 0, Gap(n, d, s, mine, scale), Gap(n, d, s, other, scale),
             Unit(d, s, scale), Two(K));
  }

  lemma RoundedInIs(n: nat, d: nat, eOffset: int, mode: Rounding, m: nat, e: int, E: int)
    requires d > 0 && RoundedIn(n, d, eOffset, mode, m, e, E)
    ensures var K := Quantum(E);
      m * Up(e - 53 - K) == RoundScaled(n, d, eOffset + K, mode) * Up(K - (e - 53))
  {
    hide Quantum;
    hide RoundScaled;
    hide Up;
  }

  lemma AsNearIs(x: real, mode: Rounding, m: nat, e: int, m2: nat, k2: int)
    ensures var mine, other := Error(x, Value(m, e - 53)), Error(x, Value(m2, k2));
      AsNear(x, mode, m, e, m2, k2)
      <==> && mine <= other
           && (mode == NearestEven && mine == other && Value(m, e - 53) != Value(m2, k2) ==> IsEven(m, e))
  {
    hide Error;
    hide Value;
    hide IsEven;
  }

  /** The rounded mantissa and exponent are a double, no double is nearer, and a tie goes to the even one. */
  lemma RoundedIsNearest(n: nat, d: nat, eOffset: int, mode: Rounding, m: nat, e: int)
    requires d > 0 && mode != TowardZero && RoundedDouble(n, d, eOffset, mode, m, e)
    ensures IsNearest(Exact(n, d, eOffset), mode, m, e)
  {
    var E :| InBinade(n, d, eOffset, E) && RoundedIn(n, d, eOffset, mode, m, e, E);
    RoundedAtMost(n, d, eOffset, E, mode);
    RoundedFits(n, d, eOffset, mode, m, e, E);
    hide RoundedIn;
    hide InBinade;
    hide IsDouble;
    hide IsEven;
    hide Exact;
    hide AsNear;
    forall m2: nat, k2: int | m2 < Pow2(53) && k2 >= SUBNORMAL_EXPONENT
      ensures AsNear(Exact(n, d, eOffset), mode, m, e, m2, k2)
    {
      NearestPair(n, d, eOffset, mode, m, e, E, m2, k2);
    }
  }

  lemma RoundedFits(n: nat, d: nat, eOffset: int, mode: Rounding, m: nat, e: int, E: int)
    requires d > 0 && RoundedIn(n, d, eOffset, mode, m, e, E)
    requires RoundScaled(n, d, eOffset + Quantum(E), mode) <= Pow2(53)
    ensures IsDouble(m, e) && (RoundScaled(n, d, eOffset + Quantum(E), mode) % 2 == 0 ==> IsEven(m, e))
  {
    hide Pow2;
    hide RoundScaled;
    hide IsDouble;
    hide IsEven;
    hide Up;
    Fits(m, e, RoundScaled(n, d, eOffset + Quantum(E), mode), Quantum(E));
  }
}
