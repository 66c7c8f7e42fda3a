/** Powers, division and rounding over unbounded numbers. */
module Powers {
  function Pow(b: nat, n: nat): (r: nat)
    ensures b > 0 ==> r > 0
    decreases n
  {
    if n == 0 then 1 else b * Pow(b, n - 1)
  }

  function Pow2(n: nat): (r: nat)
    ensures r > 0
  {
    Pow(2, n)
  }

  lemma {:induction false} PowAdd(b: nat, m: nat, n: nat)
    ensures Pow(b, m + n) == Pow(b, m) * Pow(b, n)
    decreases m
  {
    if m > 0 {
      PowAdd(b, m - 1, n);
      calc {
        Pow(b, m + n);
        b * Pow(b, m - 1 + n);
        b * (Pow(b, m - 1) * Pow(b, n));
        { Assoc(b, Pow(b, m - 1), Pow(b, n)); }
        Pow(b, m) * Pow(b, n);
      }
    }
  }

  lemma Assoc(a: int, b: int, c: int)
    ensures a * (b * c) == (a * b) * c
  {
  }

  lemma Pow2Add(m: nat, n: nat)
    ensures Pow2(m + n) == Pow2(m) * Pow2(n)
  {
    PowAdd(2, m, n);
  }

  lemma Pow2Step(n: nat)
    ensures Pow2(n + 1) == 2 * Pow2(n)
  {
  }

  lemma {:induction false} PowMonotone(b: nat, m: nat, n: nat)
    requires b > 0 && m <= n
    ensures Pow(b, m) <= Pow(b, n)
    decreases n
  {
    if m < n {
      PowMonotone(b, m, n - 1);
      MulAtLeast(b, Pow(b, n - 1));
    }
  }

  lemma MulAtLeast(a: int, b: int)
    requires a >= 1 && b >= 0
    ensures a * b >= b
  {
  }

  lemma {:induction false} PowPow(b: nat, m: nat, n: nat)
    ensures Pow(Pow(b, m), n) == Pow(b, m * n)
    decreases n
  {
    if n == 0 {
      assert m * n == 0;
    } else {
      PowPow(b, m, n - 1);
      PowAdd(b, m, m * (n - 1));
      assert m * n == m + m * (n - 1);
    }
  }

  lemma Commute(a: int, b: int)
    ensures a * b == b * a
  {
  }

  lemma Distribute(x: int, y: int, p: int)
    ensures (x + y) * p == x * p + y * p
  {
  }

  lemma MulNonNegative(x: nat, y: nat)
    ensures x * y >= 0
  {
  }

  lemma ZeroDiv(p: nat)
    requires p > 0
    ensures 0 / p == 0 && 0 % p == 0 && 0 / p % 2 == 0
  {
  }

  lemma MulLe(a: int, b: int, c: int)
    requires a <= b && c >= 0
    ensures a * c <= b * c
  {
  }

  lemma MulLt(a: int, b: int, c: int)
    requires a < b && c > 0
    ensures a * c < b * c
  {
  }

  lemma DivParts(n: int, d: int) returns (q: int, r: int)
    requires d > 0
    ensures q == n / d && r == n % d && n == q * d + r && 0 <= r < d && (n >= 0 ==> q >= 0)
  {
    q, r := n / d, n % d;
  }

  function Quotient(n: nat, d: nat): nat
    requires d > 0
  {
    n / d
  }

  function Remainder(n: nat, d: nat): nat
    requires d > 0
  {
    n % d
  }

  /** Quotient and remainder are unique. */
  lemma DivUnique(n: int, d: int, q: int, r: int)
    requires d > 0 && n == q * d + r && 0 <= r < d
    ensures n / d == q && n % d == r
  {
    var q1, r1 := n / d, n % d;
    assert n == q1 * d + r1;
    if q1 < q {
      MulLe(q1 + 1, q, d);
    } else if q < q1 {
      MulLe(q + 1, q1, d);
    }
  }

  /** Dividing twice is dividing by the product. */
  lemma DivTwice(n: nat, a: nat, b: nat)
    requires a > 0 && b > 0
    ensures a * b > 0 && n / (a * b) == n / a / b
    ensures n % (a * b) == n % a + a * (n / a % b)
  {
    var q, r := DivParts(n, a);
    var q2, r2 := DivParts(q, b);
    MulPositive(a, b);
    TwiceAlgebra(q2, b, r2, a);
    MulLe(r2 + 1, b, a);
    DivUnique(n, a * b, q2, a * r2 + r);
  }

  lemma TwiceAlgebra(q: int, b: int, r: int, a: int)
    ensures (q * b + r) * a == q * (a * b) + a * r && (r + 1) * a == a * r + a && b * a == a * b
  {
    assert (q * b) * a == q * (a * b);
  }

  lemma MulPositive(a: int, b: int)
    requires a > 0 && b > 0
    ensures a * b > 0
  {
  }

  /** Scaling both sides of a division scales the remainder. */
  lemma DivScale(n: int, d: nat, k: nat)
    requires d > 0 && k > 0
    ensures d * k > 0 && (n * k) / (d * k) == n / d && (n * k) % (d * k) == (n % d) * k
  {
    var q, r := n / d, n % d;
    assert n * k == q * (d * k) + r * k by {
      assert n == q * d + r;
      assert (q * d + r) * k == q * (d * k) + r * k;
    }
    MulLt(r, d, k);
    DivUnique(n * k, d * k, q, r * k);
  }

  // ----- products in the steps of the loops -----

  lemma AddAlgebra(v: int, p: int, k: int, u: int, b: int, x: int, a: int, c: int, base: int)
    requires v + p * k == u + b && x + k == a + base * c
    ensures (v + p * a) + (base * p) * c == (u + p * x) + b
  {
    assert p * (a + base * c) == p * a + (base * p) * c;
    assert p * (x + k) == p * x + p * k;
  }

  lemma MulAlgebra(v: int, p: int, h: int, u: int, b: int, l: int, x: int, a: int, c: int, base: int)
    requires v + p * h == u * b + l && x * b + h == a + base * c
    ensures (v + p * a) + (base * p) * c == (u + p * x) * b + l
  {
    assert p * (a + base * c) == p * a + (base * p) * c;
    assert p * (x * b + h) == (p * x) * b + p * h;
    assert (u + p * x) * b == u * b + (p * x) * b;
  }

  lemma DivAlgebra(v: int, p: int, r0: int, u: int, b: int, r: int, x: int, d: int, m: int, base: int)
    requires v + p * r0 == u * b + r && base * r + x == d * b + m
    ensures (x + base * v) + (base * p) * r0 == (d + base * u) * b + m
  {
    assert base * (v + p * r0) == base * v + (base * p) * r0;
    assert base * (u * b + r) == (base * u) * b + base * r;
    assert (d + base * u) * b == d * b + (base * u) * b;
  }

  // ----- rounding a quotient -----

  datatype Rounding = NearestEven | NearestAway | TowardZero

  /** `n / d` rounded to an integer (section 4.3.1 of IEEE 754-2019 for the nearest modes). */
  function RoundQuotient(n: nat, d: nat, mode: Rounding): nat
    requires d > 0
  {
    var q, r := n / d, n % d;
    match mode
    case TowardZero => q
    case NearestAway => if 2 * r >= d then q + 1 else q
    case NearestEven => if 2 * r > d || (2 * r == d && q % 2 == 1) then q + 1 else q
  }

  lemma RoundScale(n: nat, d: nat, k: nat, mode: Rounding)
    requires d > 0 && k > 0
    ensures d * k > 0 && RoundQuotient(n * k, d * k, mode) == RoundQuotient(n, d, mode)
  {
    DivScale(n, d, k);
    var r := n % d;
    if 2 * r < d {
      MulLt(2 * r, d, k);
    } else if 2 * r > d {
      MulLt(d, 2 * r, k);
    }
    assert 2 * (r * k) == (2 * r) * k;
  }

  /** What rounding promises: the result is a nearest integer, the even one of two; or the floor. */
  lemma RoundIsNearest(n: nat, d: nat, mode: Rounding, other: int)
    requires d > 0
    ensures var q := RoundQuotient(n, d, mode);
      if mode == TowardZero then q * d <= n < (q + 1) * d
      else
        && Distance(n, q * d) <= Distance(n, other * d)
        && (Distance(n, q * d) == Distance(n, other * d) && other != q
            ==> if mode == NearestEven then q % 2 == 0 else other < q)
  {
    var q0, r := n / d, n % d;
    var w, x := q0 * d, other * d;
    assert n == w + r;
    assert (q0 + 1) * d == w + d;
    if other < q0 {
      MulLe(other, q0 - 1, d);
      assert x <= w - d by { assert (q0 - 1) * d == w - d; }
    } else if other > q0 + 1 {
      MulLe(q0 + 2, other, d);
      assert x >= w + 2 * d by { assert (q0 + 2) * d == w + 2 * d; }
    }
    NearestLinear(w, r, d, q0, mode, other, x);
  }

  lemma NearestLinear(w: int, r: int, d: int, q0: int, mode: Rounding, other: int, x: int)
    requires 0 <= r < d && q0 >= 0
    requires other < q0 ==> x <= w - d
    requires other == q0 ==> x == w
    requires other == q0 + 1 ==> x == w + d
    requires other > q0 + 1 ==> x >= w + 2 * d
    ensures var up := match mode
        case TowardZero => false
        case NearestAway => 2 * r >= d
        case NearestEven => 2 * r > d || (2 * r == d && q0 % 2 == 1);
      var q, z, n := if up then q0 + 1 else q0, if up then w + d else w, w + r;
      if mode == TowardZero then w <= n < w + d
      else
        && Distance(n, z) <= Distance(n, x)
        && (Distance(n, z) == Distance(n, x) && other != q ==> if mode == NearestEven then q % 2 == 0 else other < q)
  {
  }

  function Distance(a: int, b: int): nat {
    if a < b then b - a else a - b
  }
}
