/** What rounding means for the scaled quotients of dtoa.c, and why a truncated quotient whose
    lowest bit is or-ed with "something was lost" rounds like the exact one. */
module FloatRounding {
  import opened Powers

  /** `n / d` truncated, with the lowest bit set when the division is not exact. */
  function Sticky(n: nat, d: nat): nat
    requires d > 0
  {
    if n % d != 0 && n / d % 2 == 0 then n / d + 1 else n / d
  }

  lemma StickyExact(n: nat)
    ensures Sticky(n, 1) == n
  {
  }

  /** Two bits below the rounding position are enough. */
  lemma StickyRound(n: nat, d: nat, s: nat, mode: Rounding)
    requires d > 0 && s >= 2
    ensures d * Pow2(s) > 0 && RoundQuotient(Sticky(n, d), Pow2(s), mode) == RoundQuotient(n, d * Pow2(s), mode)
  {
    Pow2Step(s - 1);
    Pow2Step(s - 2);
    hide Pow2;
    var h, p := Pow2(s - 1), Pow2(s);
    var q, r := DivParts(n, d);
    DivTwice(n, d, p);
    StickyParts(q, p, h, Sticky(n, d));
    StickyCompare(r, d, q % p, Sticky(n, d) % p, h);
  }

  /** Setting the lowest bit leaves the quotient by an even power alone. */
  lemma StickyParts(q: nat, p: nat, h: nat, x: nat)
    requires p == 2 * h && h > 0 && h % 2 == 0 && (x == q || (x == q + 1 && q % 2 == 0))
    ensures x / p == q / p && (x % p == q % p || (x % p == q % p + 1 && q % p % 2 == 0))
    ensures x % 2 == 1 ==> x % p % 2 == 1
  {
    var u, t := DivParts(q, p);
    DoubleOut(u, h);
    EvenStep(q, u * p, u * h, t, p, h);
    if x == q + 1 {
      DivUnique(x, p, u, t + 1);
    }
  }

  lemma DoubleOut(u: int, h: int)
    ensures u * (2 * h) == 2 * (u * h)
  {
  }

  lemma EvenStep(q: int, y: int, w: int, t: int, p: int, h: int)
    requires q == y + t && y == 2 * w && p == 2 * h && 0 <= t < p
    ensures t % 2 == q % 2 && (q % 2 == 0 ==> t + 1 < p)
  {
  }

  lemma StickyCompare(r: nat, d: nat, t: nat, t1: nat, h: nat)
    requires r < d && h % 2 == 0
    requires if r > 0 then t1 % 2 == 1 && (t1 == t || (t1 == t + 1 && t % 2 == 0)) else t1 == t
    ensures 2 * (r + d * t) > d * (2 * h) <==> 2 * t1 > 2 * h
    ensures 2 * (r + d * t) == d * (2 * h) <==> 2 * t1 == 2 * h
  {
    DoubleOut(d, h);
    var a, b := d * t, d * h;
    if t < h {
      MulLe(t + 1, h, d);
      assert (t + 1) * d == a + d && h * d == b;
    } else if t > h {
      MulLe(h + 1, t, d);
      assert (h + 1) * d == b + d && t * d == a;
    }
  }

  // ----- quotients scaled by a power of two -----

  function Up(k: int): (r: nat)
    ensures r > 0
  {
    if k > 0 then Pow2(k) else 1
  }

  /** `n / d * 2^-s` rounded to an integer. */
  function RoundScaled(n: nat, d: nat, s: int, mode: Rounding): nat
    requires d > 0
  {
    MulPositive(d, Up(s));
    RoundQuotient(n * Up(-s), d * Up(s), mode)
  }

  /** `n / d >= 2^t`. */
  predicate AtLeast(n: nat, d: nat, t: int) {
    n * Up(-t) >= d * Up(t)
  }

  /** `2^(E-1) <= n / d * 2^-eOffset < 2^E`. */
  predicate InBinade(n: nat, d: nat, eOffset: int, E: int) {
    AtLeast(n, d, E - 1 + eOffset) && !AtLeast(n, d, E + eOffset)
  }

  lemma UpSplit(s: int, k: nat)
    ensures if s >= 0 then Up(-s - k) == 1 && Up(s + k) == Up(s) * Pow2(k) && Up(-s) == 1
            else if s + k <= 0 then Up(s + k) == 1 && Up(-s) == Up(-(s + k)) * Pow2(k) && Up(s) == 1
            else Up(s) == 1 && Up(-(s + k)) == 1 && Up(s + k) * Up(-s) == Pow2(k)
  {
    if s >= 0 {
      Pow2Add(s, k);
    } else if s + k <= 0 {
      Pow2Add(-(s + k), k);
    } else {
      Pow2Add(s + k, -s);
    }
  }

  /** Scaling the numerator and the offset together changes nothing. */
  lemma RoundScaledShift(n: nat, d: nat, s: int, k: nat, mode: Rounding)
    requires d > 0
    ensures RoundScaled(n * Pow2(k), d, s + k, mode) == RoundScaled(n, d, s, mode)
  {
    hide Pow2;
    hide RoundQuotient;
    UpSplit(s, k);
    hide Up;
    MulPositive(d, Up(s));
    MulPositive(d, Up(s + k));
    RegroupScale(n, d, Up(-s), Up(s), Up(-s - k), Up(s + k), Pow2(k));
    if s >= 0 {
      RoundScale(n * Up(-s), d * Up(s), Pow2(k), mode);
    } else if s + k > 0 {
      RoundScale(n * Up(-s), d * Up(s), Up(s + k), mode);
    }
  }

  /** `n / d` at scale `a / b` and `n * p / d` at scale `a1 / b1` are the same fraction. */
  lemma RegroupScale(n: int, d: int, a: int, b: int, a1: int, b1: int, p: int)
    ensures a == 1 && a1 == 1 && b1 == b * p ==> (n * p) * a1 == (n * a) * p && d * b1 == (d * b) * p
    ensures b == 1 && b1 == 1 && a == a1 * p ==> (n * p) * a1 == n * a && d * b1 == d * b
    ensures b == 1 && a1 == 1 && b1 * a == p ==> (n * p) * a1 == (n * a) * b1 && d * b1 == (d * b) * b1
  {
    Assoc(d, b, p);
    assert (n * p) * a1 == n * (a1 * p);
    assert (n * a) * b1 == n * (b1 * a);
  }

  lemma AtLeastShift(n: nat, d: nat, t: int, k: nat)
    ensures AtLeast(n * Pow2(k), d, t + k) <==> AtLeast(n, d, t)
  {
    hide Pow2;
    UpSplit(t, k);
    hide Up;
    RegroupScale(n, d, Up(-t), Up(t), Up(-t - k), Up(t + k), Pow2(k));
    if t >= 0 {
      CompareScaled(n * Up(-t), d * Up(t), Pow2(k));
    } else if t + k > 0 {
      CompareScaled(n * Up(-t), d * Up(t), Up(t + k));
    }
  }

  lemma CompareScaled(x: int, y: int, p: int)
    requires p > 0
    ensures x * p >= y * p <==> x >= y
  {
    if x >= y {
      MulLe(y, x, p);
    } else {
      MulLt(x, y, p);
    }
  }

  // ----- 53-bit results -----

  const SUBNORMAL_EXPONENT: int := -1074

  function Quantum(E: int): int {
    if E - 53 < SUBNORMAL_EXPONENT then SUBNORMAL_EXPONENT else E - 53
  }

  /** `m * 2^(e-53)` is `n / d * 2^-eOffset` rounded to 53 bits, or to a multiple of the least
      subnormal; the mantissa is normalised or zero. */
  ghost predicate RoundedDouble(n: nat, d: nat, eOffset: int, mode: Rounding, m: nat, e: int)
    requires d > 0
  {
    exists E :: InBinade(n, d, eOffset, E) && RoundedIn(n, d, eOffset, mode, m, e, E)
  }

  ghost predicate RoundedIn(n: nat, d: nat, eOffset: int, mode: Rounding, m: nat, e: int, E: int)
    requires d > 0
  {
    var k := Quantum(E);
    var r := RoundScaled(n, d, eOffset + k, mode);
    && m * Up(e - 53 - k) == r * Up(k - (e - 53))
    && (m == 0 || Pow2(52) <= m < Pow2(53))
  }

  /** There is only one binade. */
  lemma BinadeUnique(n: nat, d: nat, eOffset: int, E: int, F: int)
    requires d > 0 && InBinade(n, d, eOffset, E) && InBinade(n, d, eOffset, F)
    ensures E == F
  {
    if E < F {
      AtLeastDown(n, d, E + eOffset, F - 1 + eOffset);
    } else if F < E {
      AtLeastDown(n, d, F + eOffset, E - 1 + eOffset);
    }
  }

  lemma AtLeastDown(n: nat, d: nat, s: int, t: int)
    requires s <= t && AtLeast(n, d, t)
    ensures AtLeast(n, d, s)
  {
    hide Pow2;
    AtLeastShift(n, d, s, t - s);
    var p := Pow2(t - s);
    MulAtLeast(p, n * Up(-t));
    RegroupScale(n, d, 1, 1, Up(-t), 1, p);
    Assoc(p, n, Up(-t));
    assert p * n == n * p;
  }

  /** What `mpb_shr_round` computes. */
  function ShiftRound(x: nat, s: int, mode: Rounding): nat {
    if s <= 0 then x * Pow2(-s) else RoundQuotient(x, Pow2(s), mode)
  }

  lemma RoundWhole(x: nat, mode: Rounding)
    ensures RoundQuotient(x, 1, mode) == x
  {
  }

  /** Shifting the sticky quotient rounds the exact one. */
  lemma ShiftRoundSticky(n: nat, d: nat, s: int, mode: Rounding)
    requires d > 0 && (d == 1 || s >= 2)
    ensures ShiftRound(Sticky(n, d), s, mode) == RoundScaled(n, d, s, mode)
  {
    if d == 1 {
      StickyExact(n);
      RoundWhole(n * Up(-s), mode);
      hide RoundQuotient;
    } else {
      StickyRound(n, d, s, mode);
      hide RoundQuotient;
      hide Sticky;
    }
  }

  /** The sticky quotient lies in the same binade as the exact one. */
  lemma StickyBinade(n: nat, d: nat, log: nat)
    requires d > 0 && Pow2(log) <= Sticky(n, d) < Pow2(log + 1) && (d == 1 || log > 0)
    ensures AtLeast(n, d, log) && !AtLeast(n, d, log + 1)
  {
    if log > 0 {
      Pow2Step(log - 1);
    }
    hide *;
    StickyBetween(n, d, Pow2(log), Pow2(log + 1), if log > 0 then Pow2(log - 1) else 0);
    AtLeastPow(n, d, log);
    AtLeastPow(n, d, log + 1);
  }

  lemma StickyBetween(n: nat, d: nat, p: nat, p1: nat, h: nat)
    requires d > 0 && p <= Sticky(n, d) < p1 && (d == 1 || p == 2 * h)
    ensures d * p <= n < d * p1
  {
    var q, r := DivParts(n, d);
    assert p <= q < p1;
    hide Sticky;
    MulLe(p, q, d);
    MulLe(q + 1, p1, d);
    MulSwap(p, q, p1, d);
  }

  lemma MulSwap(p: int, q: int, p1: int, d: int)
    ensures p * d == d * p && p1 * d == d * p1 && (q + 1) * d == q * d + d
  {
  }

  lemma AtLeastPow(n: nat, d: nat, t: nat)
    ensures AtLeast(n, d, t) <==> n >= d * Pow2(t)
  {
    assert Pow2(0) == 1;
    var s: int := t;
    assert Up(s) == Pow2(t) && Up(-s) == 1;
    hide Up;
    hide Pow2;
  }

  /** Where the rounded mantissa lies, for a number of `log + 1` bits rounded to `prec` bits. */
  lemma RoundRange(x: nat, log: nat, prec: int, mode: Rounding)
    requires Pow2(log) <= x < Pow2(log + 1)
    ensures var r := ShiftRound(x, log + 1 - prec, mode);
      if prec >= 1 then Pow2(prec - 1) <= r <= Pow2(prec) else r <= 1 && (prec < 0 ==> r == 0)
  {
    var s := log + 1 - prec;
    if s <= 0 {
      Pow2Add(log, -s);
      Pow2Add(log + 1, -s);
      hide Pow2;
      MulLe(Pow2(log), x, Pow2(-s));
      MulLe(x, Pow2(log + 1), Pow2(-s));
    } else {
      var q, r := DivParts(x, Pow2(s));
      if prec >= 1 {
        Pow2Add(prec - 1, s);
        Pow2Add(prec, s);
        hide Pow2;
        RangeAbove(x, q, r, Pow2(s), Pow2(prec - 1), Pow2(prec));
      } else {
        PowMonotone(2, log + 1, s);
        if prec < 0 {
          PowMonotone(2, log + 1, s - 1);
          Pow2Step(s - 1);
        }
        hide Pow2;
        DivUnique(x, Pow2(s), 0, x);
      }
    }
  }

  lemma RangeAbove(x: int, q: int, r: int, p: int, lo: int, hi: int)
    requires x == q * p + r && 0 <= r < p && lo * p <= x < hi * p
    ensures lo <= q < hi
  {
    if q < lo {
      MulLe(q + 1, lo, p);
    } else if q >= hi {
      MulLe(hi, q, p);
    }
  }

  /** The final adjustment of the mantissa: shifted to 53 bits, halved when rounding carried. */
  lemma Adjusted(r: nat, prec: int, E: int, m: nat, e: int)
    requires prec <= 53 && E - prec == Quantum(E)
    requires if prec >= 1 then Pow2(prec - 1) <= r <= Pow2(prec) else r <= 1 && (prec < 0 ==> r == 0)
    requires var w := r * Pow2(53 - prec); if w >= Pow2(53) then m == w / 2 && e == E + 1 else m == w && e == E
    ensures m == 0 || Pow2(52) <= m < Pow2(53)
    ensures m * Up(e - 53 - Quantum(E)) == r * Up(Quantum(E) - (e - 53))
  {
    Pow2Step(52);
    if r == 0 {
      ZeroTimes(Pow2(53 - prec));
    } else if prec >= 0 {
      Pow2Add(prec, 53 - prec);
      MulLe(r, Pow2(prec), Pow2(53 - prec));
      if prec >= 1 {
        Pow2Add(prec - 1, 53 - prec);
        MulLe(Pow2(prec - 1), r, Pow2(53 - prec));
      }
      AdjustedSplit(r, prec, E, m, e);
    }
  }

  lemma ZeroTimes(x: int)
    ensures 0 * x == 0
  {
  }

  lemma AdjustedSplit(r: nat, prec: int, E: int, m: nat, e: int)
    requires 0 <= prec <= 53 && E - prec == Quantum(E)
    requires var w := r * Pow2(53 - prec);
      w <= Pow2(53) && (if w >= Pow2(53) then m == w / 2 && e == E + 1 else m == w && e == E)
    ensures m * Up(e - 53 - Quantum(E)) == r * Up(Quantum(E) - (e - 53))
  {
    hide *;
    UpFacts(prec);
    if e == E + 1 {
      if prec <= 52 {
        DoubleOut(r, Pow2(52 - prec));
      }
      assert e - 53 - Quantum(E) == prec - 52 && Quantum(E) - (e - 53) == 52 - prec;
    } else {
      assert e - 53 - Quantum(E) == prec - 53 && Quantum(E) - (e - 53) == 53 - prec;
    }
  }

  lemma UpFacts(prec: int)
    requires 0 <= prec <= 53
    ensures Up(prec - 53) == 1 && Up(53 - prec) == Pow2(53 - prec) && Pow2(53) == 2 * Pow2(52) && Pow2(0) == 1
    ensures prec == 53 ==> Up(prec - 52) == 2 && Up(52 - prec) == 1
    ensures prec <= 52
            ==> Up(prec - 52) == 1 && Up(52 - prec) == Pow2(52 - prec) && Pow2(53 - prec) == 2 * Pow2(52 - prec)
  {
    Pow2Step(52);
    assert Pow2(0) == 1 && Pow2(1) == 2;
    if prec <= 52 {
      Pow2Step(52 - prec);
    }
  }

  /** The representation may carry any extra power of two. */
  lemma RoundedDoubleShift(n: nat, d: nat, eOffset: int, k: nat, mode: Rounding, m: nat, e: int)
    requires d > 0 && RoundedDouble(n * Pow2(k), d, eOffset + k, mode, m, e)
    ensures RoundedDouble(n, d, eOffset, mode, m, e)
  {
    hide Pow2;
    hide AtLeast;
    hide RoundScaled;
    hide Quantum;
    var E :| InBinade(n * Pow2(k), d, eOffset + k, E) && RoundedIn(n * Pow2(k), d, eOffset + k, mode, m, e, E);
    AtLeastShift(n, d, E - 1 + eOffset, k);
    AtLeastShift(n, d, E + eOffset, k);
    RoundScaledShift(n, d, eOffset + Quantum(E), k, mode);
    assert InBinade(n, d, eOffset, E) && RoundedIn(n, d, eOffset, mode, m, e, E);
  }

  /** `|n / d * 2^-eOffset - y * 2^k|` on the scale where every number compared is an integer. */
  function Gap(n: nat, d: nat, s: int, y: int, scale: nat): nat {
    Distance(n * Up(-s) * scale, y * (d * Up(s)))
  }

  /** Among all doubles: the rounded value `r * 2^K` is at least as close to `x = n / d * 2^-eOffset` as any
      `m2 * 2^k2` with a mantissa of 53 bits and an exponent not below the subnormal one, and of two
      nearest ones the even one is taken. */
  lemma NearestDouble(n: nat, d: nat, eOffset: int, E: int, mode: Rounding, m2: nat, k2: int)
    requires d > 0 && mode != TowardZero && InBinade(n, d, eOffset, E)
    requires m2 < Pow2(53) && k2 >= SUBNORMAL_EXPONENT
    ensures var K := Quantum(E); var s := eOffset + K; var r := RoundScaled(n, d, s, mode);
      var scale, mine, other := Up(K - k2), r * Up(K - k2), m2 * Up(k2 - K);
      && Gap(n, d, s, mine, scale) <= Gap(n, d, s, other, scale)
      && (mode == NearestEven && mine != other && Gap(n, d, s, mine, scale) == Gap(n, d, s, other, scale)
          ==> r % 2 == 0)
  {
    hide *;
    var K := Quantum(E);
    ScaleOfGap(K, k2);
    if k2 >= K {
      TimesOne(RoundScaled(n, d, eOffset + K, mode));
      NearestMultiple(n, d, eOffset + K, mode, m2 * Up(k2 - K));
    } else {
      BinadeFloor(n, d, eOffset, E);
      TimesOne(m2);
      FarBelow(n, d, eOffset + K, mode, m2, Up(K - k2), Up(K - k2 - 1));
    }
  }

  lemma TimesOne(x: int)
    ensures x * 1 == x
  {
  }

  lemma ScaleOfGap(K: int, k2: int)
    ensures k2 >= K ==> Up(K - k2) == 1
    ensures k2 < K ==> Up(k2 - K) == 1 && Up(K - k2) == 2 * Up(K - k2 - 1) && Up(K - k2 - 1) > 0
  {
    if k2 < K {
      Pow2Step(K - k2 - 1);
      assert Pow2(0) == 1;
    }
  }

  lemma NearestMultiple(n: nat, d: nat, s: int, mode: Rounding, j: nat)
    requires d > 0 && mode != TowardZero
    ensures var r := RoundScaled(n, d, s, mode);
      Gap(n, d, s, r, 1) <= Gap(n, d, s, j, 1)
      && (Gap(n, d, s, r, 1) == Gap(n, d, s, j, 1) && r != j && mode == NearestEven ==> r % 2 == 0)
  {
    MulPositive(d, Up(s));
    RoundIsNearest(n * Up(-s), d * Up(s), mode, j);
  }

  /** In the normal range the quantum is the binade's, and the binade starts at 2^52 of it. */
  lemma BinadeFloor(n: nat, d: nat, eOffset: int, E: int)
    requires InBinade(n, d, eOffset, E) && Quantum(E) > SUBNORMAL_EXPONENT
    ensures var s := eOffset + Quantum(E); n * Up(-s) >= Pow2(52) * (d * Up(s))
  {
    var s := eOffset + Quantum(E);
    assert E - 1 + eOffset == s + 52;
    UpSplit(s, 52);
    hide Pow2;
    FloorAlgebra(n, d, Up(-s), Up(s), Up(-(s + 52)), Up(s + 52), Pow2(52));
    assert -s - 52 == -(s + 52);
  }

  lemma FloorAlgebra(n: int, d: int, a: int, b: int, a1: int, b1: int, p: int)
    requires n >= 0 && d >= 0 && a > 0 && b > 0 && a1 > 0 && b1 > 0 && p > 0 && n * a1 >= d * b1
    requires
      || (a1 == 1 && b1 == b * p && a == 1)
      || (b1 == 1 && a == a1 * p && b == 1)
      || (b == 1 && a1 == 1 && b1 * a == p)
    ensures n * a >= p * (d * b)
  {
    if a1 == 1 && b1 == b * p && a == 1 {
      assert d * (b * p) == p * (d * b);
    } else if b1 == 1 && a == a1 * p && b == 1 {
      MulLe(d, n * a1, p);
      assert n * (a1 * p) == (n * a1) * p && p * (d * 1) == d * p;
    } else {
      MulLe(d * b1, n, a);
      assert (d * b1) * a == p * d by { Assoc(d, b1, a); Commute(d, p); }
    }
  }

  /** A finer number has fewer bits above, so it lies below the binade, farther than its first multiple. */
  lemma FarBelow(n: nat, d: nat, s: int, mode: Rounding, m2: nat, scale: nat, half: nat)
    requires d > 0 && mode != TowardZero && scale == 2 * half && half > 0 && m2 < Pow2(53)
    requires n * Up(-s) >= Pow2(52) * (d * Up(s))
    ensures var r := RoundScaled(n, d, s, mode); Gap(n, d, s, r * scale, scale) < Gap(n, d, s, m2, scale)
  {
    var p := Pow2(52);
    Pow2Step(52);
    hide Pow2;
    var x, y, r := n * Up(-s), d * Up(s), RoundScaled(n, d, s, mode);
    MulPositive(d, Up(s));
    NearestMultiple(n, d, s, mode, p);
    hide RoundScaled;
    FarAlgebra(x, y, r, p, m2, scale, half);
  }

  lemma FarAlgebra(x: int, y: int, r: int, p: int, m2: int, scale: int, half: int)
    requires y > 0 && x >= p * y && 0 <= m2 < 2 * p && scale == 2 * half && half > 0 && r >= 0
    requires Distance(x * 1, r * y) <= Distance(x * 1, p * y)
    ensures Distance(x * scale, (r * scale) * y) < Distance(x * scale, m2 * y)
  {
    var near, first, xs, z := r * y, p * y, x * scale, m2 * y;
    Commute(scale, y);
    Assoc(r, scale, y);
    Assoc(r, y, scale);
    DistanceScale(x, near, scale);
    DistanceScale(x, first, scale);
    MulLe(Distance(x, near), Distance(x, first), scale);
    MulLe(first, x, scale);
    BelowFirst(y, p, m2, scale, half);
    hide *;
    FarLinear(xs, near * scale, first * scale, z);
  }

  lemma BelowFirst(y: int, p: int, m2: int, scale: int, half: int)
    requires y > 0 && 0 <= m2 < 2 * p && scale == 2 * half && half > 0
    ensures m2 * y < (p * y) * scale
  {
    MulAtLeast(half, 2 * p);
    DoubleOut(p, half);
    Assoc(2, p, half);
    Commute(half, 2 * p);
    MulLt(m2, p * scale, y);
    Assoc(p, scale, y);
    Assoc(p, y, scale);
    Commute(scale, y);
  }

  lemma FarLinear(x: int, near: int, first: int, z: int)
    requires z < first <= x && Distance(x, near) <= Distance(x, first)
    ensures Distance(x, near) < Distance(x, z)
  {
  }

  lemma DistanceScale(a: int, b: int, k: int)
    requires k > 0
    ensures Distance(a * k, b * k) == Distance(a, b) * k
  {
    if a < b {
      MulLt(a, b, k);
      assert (b - a) * k == b * k - a * k;
    } else {
      MulLe(b, a, k);
      assert (a - b) * k == a * k - b * k;
    }
  }
}
