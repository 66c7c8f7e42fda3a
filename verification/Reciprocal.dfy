/** Division of a double limb by a normalised divisor through a precomputed reciprocal, and the
    in-place long division built on it. All of the C arithmetic wraps: limbs modulo 2^32, double
    limbs modulo 2^64. */
module Reciprocal {
  import opened Powers
  import opened Limbs

  const BASE2: int := 0x1_0000_0000_0000_0000

  /** `udiv1norm_init`. The result is the reciprocal less 2^32: the largest `v` with
      `(v + 2^32) * d < 2^64`. */
  function ReciprocalOf(d: limb): (v: limb)
    requires d >= 0x8000_0000
    ensures (v + BASE) * d <= BASE2 - 1 < (v + BASE + 1) * d
  {
    var a1 := (-(d as int) - 1) % BASE;
    var a0 := BASE - 1;
    var v := (a1 * BASE + a0) / d;
    ReciprocalBounds(d, v);
    v
  }

  lemma ReciprocalBounds(d: int, v: int)
    requires 0x8000_0000 <= d < BASE
    requires v == (((-d - 1) % BASE) * BASE + (BASE - 1)) / d
    ensures 0 <= v < BASE && (v + BASE) * d <= BASE2 - 1 < (v + BASE + 1) * d
  {
    assert (-d - 1) % BASE == BASE - d - 1;
    var n := (BASE - d - 1) * BASE + (BASE - 1);
    assert n == BASE2 - 1 - BASE * d;
    assert v * d <= n < (v + 1) * d by {
      assert n == v * d + n % d;
    }
    assert (v + BASE) * d == v * d + BASE * d;
    assert (v + BASE + 1) * d == (v + 1) * d + BASE * d;
    if v >= BASE {
      MulLe(BASE, v, d);
    }
  }

  /** The estimate, before the final correction: the top limb of the product with the reciprocal. */
  function Estimate(a1: limb, a0: limb, d: limb, dInv: limb): limb {
    var n1m := if a0 >= 0x8000_0000 then BASE - 1 else 0;
    var nAdj := (a0 + (if n1m == 0 then 0 else d)) % BASE;
    var a := (dInv as int * ((a1 - n1m) % BASE) + nAdj) % BASE2;
    (a / BASE + a1) % BASE
  }

  /** `(v + 2^32) * d` is just below 2^64 by `e + 1`. */
  lemma EstimateSum(a1: limb, a0: limb, d: limb, v: limb)
    requires 0x8000_0000 <= d && a1 < d && v == ReciprocalOf(d)
    ensures var hi := a0 >= 0x8000_0000; var m, t := a1 + (if hi then 1 else 0), a0 + (if hi then d - BASE else 0);
      (0 <= v as int * m + t < BASE2 && 0 <= t < BASE
        && (v as int * m + t) / BASE + a1 == ((v + BASE) * m + t - (m - a1) * BASE) / BASE)
  {
    var hi := a0 >= 0x8000_0000;
    var m, t: int := a1 + (if hi then 1 else 0), a0 + (if hi then d - BASE else 0);
    SquareBound(v, m, BASE - 1);
    var p: int := v as int * m;
    assert (v + BASE) * m == p + BASE * m;
    assert (BASE - 1) * (BASE - 1) + BASE - 1 < BASE2;
    ShiftedQuotient(p + t, a1);
    assert (v + BASE) * m + t - (m - a1) * BASE == p + t + a1 * BASE;
  }

  lemma ShiftedQuotient(x: int, k: int)
    ensures x / BASE + k == (x + k * BASE) / BASE
  {
  }

  /** The estimate is the quotient or one less. */
  lemma EstimateBounds(a1: int, a0: int, d: int, w: int, q: int, m: int, t: int)
    requires 0x8000_0000 <= d < BASE && 0 <= a1 < d && 0 <= a0 < BASE
    requires w * d <= BASE2 - 1 < (w + 1) * d
    requires (a0 < 0x8000_0000 && m == a1 && t == a0) || (a0 >= 0x8000_0000 && m == a1 + 1 && t == a0 + d - BASE)
    requires q == (w * m + t - (m - a1) * BASE) / BASE
    ensures q * d <= a1 * BASE + a0 < (q + 2) * d
  {
    var e := BASE2 - 1 - w * d;
    assert 0 <= e < d by { assert (w + 1) * d == w * d + d; }
    var s := w * m + t - (m - a1) * BASE;
    FloorBounds(s, BASE, q);
    MulLe(0, m, e + 1);
    ReciprocalProduct(w, m, d, e, t, (m - a1) * BASE);
    MulLe(q * BASE, s, d);
    MulLe(s + 1, (q + 1) * BASE, d);
    assert (s + 1) * d == s * d + d;
    if a0 < 0x8000_0000 {
      LowHalf(a1, a0, d, m * (e + 1), s * d, q, e);
    } else {
      HighHalf(a1, a0, d, m * (e + 1), s * d, q, e);
    }
  }

  lemma FloorBounds(s: int, b: int, q: int)
    requires b > 0 && q == s / b
    ensures q * b <= s < (q + 1) * b
  {
  }

  /** The product with the reciprocal, resolved. */
  lemma ReciprocalProduct(w: int, m: int, d: int, e: int, t: int, x: int)
    requires w * d == BASE2 - (e + 1)
    ensures (w * m + t - x) * d == m * BASE2 - m * (e + 1) + t * d - x * d
  {
    assert (w * m + t - x) * d == (w * m) * d + t * d - x * d;
    assert (w * m) * d == m * (w * d);
    assert m * (BASE2 - (e + 1)) == m * BASE2 - m * (e + 1);
  }

  lemma LowHalf(a1: int, a0: int, d: int, g: int, sd: int, q: int, e: int)
    requires 0x8000_0000 <= d < BASE && 0 <= a1 < d && 0 <= a0 < 0x8000_0000 && 0 <= e < d
    requires 0 <= g == a1 * (e + 1) && sd == a1 * BASE2 - g + a0 * d - (0 * BASE) * d
    requires (q * BASE) * d <= sd && sd + d <= ((q + 1) * BASE) * d
    ensures q * d <= a1 * BASE + a0 < (q + 2) * d
  {
    var z := q * d;
    assert (q * BASE) * d == BASE * z && ((q + 1) * BASE) * d == BASE * z + BASE * d && (q + 2) * d == z + 2 * d;
    // below: z * BASE <= a1 * BASE^2 + a0 * BASE
    MulLe(d, BASE, a0);
    assert BASE * z <= BASE * (a1 * BASE + a0);
    // above
    MulLe(a1, d - 1, e + 1);
    MulLe(e + 1, d, d - 1);
    assert g <= (d - 1) * d;
    MulLe(a0, 0x8000_0000, BASE - d);
    var h, k := a0 * (BASE - d), d * (BASE - d);
    assert a0 * d == a0 * BASE - h && (d - 1) * d == d * BASE - k - d;
    MulLe(0x8000_0000, d, BASE - d);
    assert BASE * z + BASE * d >= a1 * BASE2 - (d - 1) * d + a0 * d + d;
    assert BASE * (z + 2 * d) > BASE * (a1 * BASE + a0);
  }

  lemma HighHalf(a1: int, a0: int, d: int, g: int, sd: int, q: int, e: int)
    requires 0x8000_0000 <= d < BASE && 0 <= a1 < d && 0x8000_0000 <= a0 < BASE && 0 <= e < d
    requires 0 <= g == (a1 + 1) * (e + 1) && sd == (a1 + 1) * BASE2 - g + (a0 + d - BASE) * d - (1 * BASE) * d
    requires (q * BASE) * d <= sd && sd + d <= ((q + 1) * BASE) * d
    ensures q * d <= a1 * BASE + a0 < (q + 2) * d
  {
    var z := q * d;
    assert (q * BASE) * d == BASE * z && ((q + 1) * BASE) * d == BASE * z + BASE * d && (q + 2) * d == z + 2 * d;
    var c := BASE - d;
    var h, k := a0 * c, c * c;
    HighProducts(a0, c, d);
    assert sd == a1 * BASE2 - g + a0 * BASE - h + k;
    MulLe(c, a0, c);
    SquareBound(a1 + 1, e + 1, d);
    MulLe(a0, BASE, c);
    HighLinear(a1, a0, d, g, sd, z, c, h, k);
  }

  lemma HighProducts(a0: int, c: int, d: int)
    requires d == BASE - c
    ensures (a0 + d - BASE) * d == a0 * BASE - a0 * c - c * BASE + c * c
    ensures (1 * BASE) * d == BASE2 - c * BASE
    ensures d * d == BASE2 - 2 * BASE * c + c * c
  {
    assert (a0 - c) * (BASE - c) == a0 * BASE - a0 * c - c * BASE + c * c;
    assert (BASE - c) * (BASE - c) == BASE * BASE - 2 * BASE * c + c * c;
  }

  lemma HighLinear(a1: int, a0: int, d: int, g: int, sd: int, z: int, c: int, h: int, k: int)
    requires sd == a1 * BASE2 - g + a0 * BASE - h + k && 0 <= g <= BASE2 - 2 * BASE * c + k && d == BASE - c && d > 0
    requires k <= h <= BASE * c
    requires BASE * z <= sd && sd + d <= BASE * z + BASE * d
    ensures z <= a1 * BASE + a0 < z + 2 * d
  {
  }

  lemma EstimateIs(a1: limb, a0: limb, d: limb, dInv: limb) returns (q: int)
    requires 0x8000_0000 <= d && a1 < d && dInv == ReciprocalOf(d)
    ensures q >= 0 && Estimate(a1, a0, d, dInv) == q % BASE
    ensures q * d <= a1 as int * BASE + a0 < (q + 2) * d
  {
    var hi := a0 >= 0x8000_0000;
    var m: int, t: int := a1 + (if hi then 1 else 0), a0 + (if hi then d - BASE else 0);
    EstimateSum(a1, a0, d, dInv);
    var p: int := dInv as int * m + t;
    q := p / BASE + a1;
    ReciprocalFacts(d, dInv);
    hide ReciprocalOf;
    EstimateUnwrapped(a1, a0, d, dInv, m, t);
    hide Estimate;
    EstimateBounds(a1, a0, d, dInv + BASE, q, m, t);
  }

  lemma ReciprocalFacts(d: limb, v: limb)
    requires 0x8000_0000 <= d && v == ReciprocalOf(d)
    ensures (v + BASE) * d <= BASE2 - 1 < (v + BASE + 1) * d
  {
  }

  lemma EstimateUnwrapped(a1: limb, a0: limb, d: limb, dInv: limb, m: int, t: int)
    requires 0x8000_0000 <= d && a1 < d
    requires var hi := a0 >= 0x8000_0000; m == a1 + (if hi then 1 else 0) && t == a0 + (if hi then d - BASE else 0)
    requires 0 <= dInv as int * m + t < BASE2
    ensures Estimate(a1, a0, d, dInv) == ((dInv as int * m + t) / BASE + a1) % BASE
  {
    EstimateWraps(a1, a0, d);
    hide *;
    EstimateUnfold(a1, a0, d, dInv, m, t);
    TopHalf(dInv as int * m + t, a1, Estimate(a1, a0, d, dInv));
  }

  lemma TopHalf(p: int, a1: int, r: int)
    requires 0 <= p < BASE2 && r == (p % BASE2 / BASE + a1) % BASE
    ensures r == (p / BASE + a1) % BASE
  {
  }

  lemma EstimateUnfold(a1: limb, a0: limb, d: limb, dInv: limb, m: int, t: int)
    requires m == (a1 - (if a0 >= 0x8000_0000 then BASE - 1 else 0)) % BASE
    requires t == (a0 + (if a0 >= 0x8000_0000 then d else 0)) % BASE
    ensures Estimate(a1, a0, d, dInv) == ((dInv as int * m + t) % BASE2 / BASE + a1) % BASE
  {
  }

  /** What wraps in the operands of the estimate. */
  lemma EstimateWraps(a1: limb, a0: limb, d: limb)
    requires 0x8000_0000 <= d && a1 < d
    ensures a0 >= 0x8000_0000 ==> (a1 - (BASE - 1)) % BASE == a1 + 1 && (a0 + d) % BASE == a0 + d - BASE
    ensures a0 < 0x8000_0000 ==> (a1 - 0) % BASE == a1 && (a0 + 0) % BASE == a0
  {
  }

  /** `udiv1norm`: exact quotient and remainder of `a1 * 2^32 + a0` by `d`, whatever wraps on the way. */
  method Udiv1Norm(a1: limb, a0: limb, d: limb, dInv: limb) returns (q: limb, r: limb)
    requires 0x8000_0000 <= d && a1 < d && dInv == ReciprocalOf(d)
    ensures q as int * d + r == a1 as int * BASE + a0 && r < d
  {
    ghost var q0 := EstimateIs(a1, a0, d, dInv);
    hide ReciprocalOf;
    q := Estimate(a1, a0, d, dInv);
    hide Estimate;
    var n: int := a1 as int * BASE + a0;
    var a: int := (n - q as int * d - d) % BASE2;
    var ah: int := a / BASE;
    CorrectionStep(n, d, q0, q, a, ah);
    q := (q + 1 + ah) % BASE;
    r := (a % BASE + (if ah == 0 then 0 else d)) % BASE;
  }

  /** The high limb of the difference is 0 when the estimate was one too small and all ones when it was
      right; `ah & d` is then 0 or `d`. */
  lemma CorrectionStep(n: int, d: int, q0: int, q: int, a: int, ah: int)
    requires 0x8000_0000 <= d < BASE && 0 <= n < d * BASE
    requires 0 <= q0 && q0 * d <= n < (q0 + 2) * d && q == q0 % BASE && a == (n - q * d - d) % BASE2 && ah == a / BASE
    ensures ah == 0 || ah == BASE - 1
    ensures var q1, r := (q + 1 + ah) % BASE, (a % BASE + (if ah == 0 then 0 else d)) % BASE;
      0 <= r < d && q1 * d + r == n
  {
    if q0 >= BASE {
      MulLe(BASE, q0, d);
    }
    assert q == q0;
    var p := q * d;
    OneMore(q, d);
    var z := n - p - d;
    if z < 0 {
      CorrectDown(z, d, q, a, ah);
    } else {
      if q + 1 >= BASE {
        MulLe(BASE, q + 1, d);
      }
      CorrectUp(z, d, q, a, ah);
    }
  }

  lemma OneMore(q: int, d: int)
    ensures (q + 1) * d == q * d + d && (q + 2) * d == q * d + 2 * d
  {
  }

  lemma CorrectDown(z: int, d: int, q: int, a: int, ah: int)
    requires 0 < d < BASE && -d <= z < 0 && 0 <= q < BASE && a == z % BASE2 && ah == a / BASE
    ensures ah == BASE - 1 && (q + 1 + ah) % BASE == q && (a % BASE + d) % BASE == z + d
  {
    WrapBelow(z);
  }

  lemma CorrectUp(z: int, d: int, q: int, a: int, ah: int)
    requires 0 <= z < d < BASE && 0 <= q < BASE - 1 && a == z % BASE2 && ah == a / BASE
    ensures ah == 0 && (q + 1 + ah) % BASE == q + 1 && (a % BASE) % BASE == z
  {
  }

  lemma WrapBelow(z: int)
    requires -BASE <= z < 0
    ensures z % BASE2 == z + BASE2 && (z + BASE2) / BASE == BASE - 1 && (z + BASE2) % BASE == z + BASE
  {
  }

  /** `mp_div1norm` in place: the number and the high limb `r0` are shifted left to match the normalised
      divisor `b`, divided limb by limb, and the remainder is shifted back. The division is by the
      unnormalised divisor `b0`, and exact. */
  method Div1Norm(tab: array<limb>, n: nat, b: limb, r0: limb, bInv: limb, shift: nat, ghost b0: nat) returns (r: limb)
    requires n <= tab.Length && shift < LIMB_BITS
    requires 0x8000_0000 <= b && b == b0 * Pow2(shift) && bInv == ReciprocalOf(b) && r0 < b0
    modifies tab
    ensures Value(old(tab[..n])) + PowB(n) * r0 == Value(tab[..n]) * b0 + r && r < b0
    ensures tab[n..] == old(tab[n..])
  {
    hide *;
    ghost var total := Value(tab[..n]) + PowB(n) * r0;
    r := ShiftIn(tab, n, b, r0, shift, b0);
    r := DivLoop(tab, n, b, r, bInv);
    PowersOfLimb(shift);
    NormBack(total, b0, Pow2(shift), Value(tab[..n]), r);
    r := r / Pow2(shift);
  }

  method ShiftIn(tab: array<limb>, n: nat, b: limb, r0: limb, shift: nat, ghost b0: nat) returns (r: limb)
    requires n <= tab.Length && shift < LIMB_BITS && b == b0 * Pow2(shift) && r0 < b0
    modifies tab
    ensures Value(tab[..n]) + PowB(n) * r == (Value(old(tab[..n])) + PowB(n) * r0) * Pow2(shift) && r < b
    ensures tab[n..] == old(tab[n..])
  {
    hide *;
    BaseIs();
    ghost var v := Value(tab[..n]);
    if shift == 0 {
      ShiftZero();
      r := r0;
    } else {
      PowersOfLimb(shift);
      var out := Shl(tab, n, shift, 0);
      NormHigh(r0, b0, Pow2(shift), b, out);
      r := (r0 as int * Pow2(shift)) % BASE + out;
      NormValue(v, r0, Pow2(shift), PowB(n), out, Value(tab[..n]), r);
    }
  }

  lemma ShiftZero()
    ensures Pow2(0) == 1
  {
  }

  /** The high limb, shifted and completed, is below the normalised divisor and does not overflow. */
  lemma NormHigh(r0: nat, b0: nat, p: nat, b: int, out: nat)
    requires r0 < b0 && b == b0 * p && out < p && b < BASE
    ensures (r0 * p) % BASE == r0 * p && 0 <= r0 * p + out < b
  {
    MulLe(r0 + 1, b0, p);
    assert (r0 + 1) * p == r0 * p + p;
  }

  lemma NormValue(v: int, r0: int, p: int, w: int, out: int, v1: int, r: int)
    requires v1 + w * out == v * p + 0 && r == r0 * p + out
    ensures v1 + w * r == (v + w * r0) * p
  {
    assert w * (r0 * p + out) == (w * r0) * p + w * out;
    assert (v + w * r0) * p == v * p + (w * r0) * p;
  }

  lemma NormBack(n: int, b0: nat, p: nat, q: nat, r: nat)
    requires b0 > 0 && p > 0 && n * p == q * (b0 * p) + r && r < b0 * p
    ensures n == q * b0 + r / p && r / p < b0
  {
    DivScale(n, b0, p);
    DivUnique(n * p, b0 * p, q, r);
    assert r == (n % b0) * p;
    DivUnique(r, p, n % b0, 0);
  }

  method DivLoop(tab: array<limb>, n: nat, b: limb, r0: limb, bInv: limb) returns (r: limb)
    requires n <= tab.Length && 0x8000_0000 <= b && bInv == ReciprocalOf(b) && r0 < b
    modifies tab
    ensures Value(old(tab[..n])) + PowB(n) * r0 == Value(tab[..n]) * b + r && r < b
    ensures tab[n..] == old(tab[n..])
  {
    ValueNone();
    hide *;
    r := r0;
    ghost var old0 := tab[..];
    var i: nat := n;
    assert old0[n..n] == [] && tab[n..n] == [];
    while i > 0
      invariant i <= n && r < b
      invariant tab[..i] == old0[..i] && tab[n..] == old0[n..]
      invariant Value(old0[i..n]) + PowB(n - i) * r0 == Value(tab[i..n]) * b + r
    {
      i := i - 1;
      ghost var q0, a0 := tab[i + 1..n], old0[i + 1..n];
      ghost var x := tab[i];
      assert x == old0[i];
      var q, r1 := Udiv1Norm(r, tab[i], b, bInv);
      DivTurn(a0, q0, x, b, r, r0, q, r1);
      tab[i] := q;
      r := r1;
      assert tab[i..n] == [tab[i]] + q0 && old0[i..n] == [old0[i]] + a0;
    }
    assert tab[0..n] == tab[..n] && old0[0..n] == old0[..n];
  }
}
