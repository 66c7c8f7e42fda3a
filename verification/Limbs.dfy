/** Limb-array arithmetic of dtoa.c: 32-bit limbs, least significant first, updated in place. C's
    unsigned wrap-around is written out; or-ing disjoint bits is written as addition. */
module Limbs {
  import opened Powers

  const BASE: int := 0x1_0000_0000
  const LIMB_BITS: int := 32

  type limb = x: int | 0 <= x < 0x1_0000_0000

  /** The number a limb list stands for. */
  function Value(s: seq<limb>): nat {
    if s == [] then 0 else s[0] as int + BASE * Value(s[1..])
  }

  function PowB(n: nat): (r: nat)
    ensures r > 0
  {
    Pow(BASE, n)
  }

  lemma {:induction false} ValueConcat(a: seq<limb>, b: seq<limb>)
    ensures Value(a + b) == Value(a) + PowB(|a|) * Value(b)
  {
    if a == [] {
      assert a + b == b;
    } else {
      assert (a + b)[1..] == a[1..] + b;
      ValueConcat(a[1..], b);
      PowBStep(|a| - 1);
      hide PowB;
      ConcatAlgebra(BASE, Value(a[1..]), PowB(|a| - 1), Value(b));
    }
  }

  lemma ConcatAlgebra(base: int, x: int, p: int, y: int)
    ensures base * (x + p * y) == base * x + (base * p) * y
  {
  }

  lemma ValueOne(x: limb)
    ensures Value([x]) == x
  {
  }

  lemma ValueSnoc(s: seq<limb>, x: limb)
    ensures Value(s + [x]) == Value(s) + PowB(|s|) * x
  {
    hide *;
    ValueConcat(s, [x]);
    ValueOne(x);
  }

  lemma ValueCons(x: limb, s: seq<limb>)
    ensures Value([x] + s) == x + BASE * Value(s)
  {
    assert ([x] + s)[1..] == s;
  }

  lemma {:induction false} ValueBound(s: seq<limb>)
    ensures Value(s) < PowB(|s|)
  {
    if s != [] {
      ValueBound(s[1..]);
      assert BASE * (Value(s[1..]) + 1) <= BASE * PowB(|s| - 1);
    }
  }

  /** `mp_add_ui`: adds `b` and stops when no carry is left. */
  method AddUi(tab: array<limb>, b: limb, n: nat) returns (k: limb)
    requires n <= tab.Length
    modifies tab
    ensures Value(tab[..n]) + PowB(n) * k == Value(old(tab[..n])) + b
    ensures tab[n..] == old(tab[n..])
  {
    ValueNone();
    hide *;
    k := b;
    var i: nat := 0;
    ghost var old0 := tab[..];
    while i < n && k != 0
      invariant i <= n
      invariant Value(tab[..i]) + PowB(i) * k == Value(old0[..i]) + b
      invariant tab[i..] == old0[i..]
    {
      var a := (tab[i] + k) % BASE;
      AddTurn(tab[..i], old0[..i], old0[i], k, b);
      assert tab[i] == old0[i];
      k := if a < k then 1 else 0;
      tab[i] := a;
      assert tab[..i + 1] == tab[..i] + [a] && old0[..i + 1] == old0[..i] + [old0[i]];
      i := i + 1;
    }
    SameTail(tab[..], old0, i, n, k, b);
    assert tab[..][..i] == tab[..i] && tab[..][..n] == tab[..n];
  }

  lemma ValueNone()
    ensures Value([]) == 0 && PowB(0) == 1 && BASE == 0x1_0000_0000
  {
  }

  lemma AddTurn(s: seq<limb>, t: seq<limb>, x: limb, k: limb, b: int)
    requires |s| == |t| && Value(s) + PowB(|s|) * k == Value(t) + b
    ensures var a := (x + k) % BASE; var c := if a < k then 1 else 0;
      Value(s + [a]) + PowB(|s| + 1) * c == Value(t + [x]) + b
  {
    hide Value;
    var a := (x + k) % BASE;
    var c := if a < k then 1 else 0;
    assert x + k == a + BASE * c;
    PowBStep(|s|);
    hide PowB;
    ValueSnoc(s, a);
    ValueSnoc(t, x);
    AddAlgebra(Value(s), PowB(|s|), k, Value(t), b, x, a, c, BASE);
  }

  lemma PowBStep(n: nat)
    ensures PowB(n + 1) == BASE * PowB(n)
  {
  }

  lemma SameTail(s: seq<limb>, t: seq<limb>, i: nat, n: nat, k: limb, b: int)
    requires i <= n <= |s| == |t| && s[i..] == t[i..]
    requires Value(s[..i]) + PowB(i) * k == Value(t[..i]) + b
    requires i < n ==> k == 0
    ensures Value(s[..n]) + PowB(n) * k == Value(t[..n]) + b
    ensures s[n..] == t[n..]
  {
    assert s[i..n] == t[i..n] by {
      assert s[i..n] == s[i..][..n - i] && t[i..n] == t[i..][..n - i];
    }
    assert s[..n] == s[..i] + s[i..n] && t[..n] == t[..i] + t[i..n];
    ValueConcat(s[..i], s[i..n]);
    ValueConcat(t[..i], t[i..n]);
    assert s[n..] == s[i..][n - i..] && t[n..] == t[i..][n - i..];
  }

  /** `mp_mul1` in place: times `b` plus `l`; the result is the high carry. */
  method Mul1(tab: array<limb>, n: nat, b: limb, l: limb) returns (h: limb)
    requires n <= tab.Length
    modifies tab
    ensures Value(tab[..n]) + PowB(n) * h == Value(old(tab[..n])) * b + l
    ensures tab[n..] == old(tab[n..])
  {
    h := l;
    ghost var old0 := tab[..];
    for i := 0 to n
      invariant Value(tab[..i]) + PowB(i) * h == Value(old0[..i]) * b + l
      invariant tab[i..] == old0[i..]
    {
      assert tab[i] == old0[i];
      ghost var w := ProductFits(tab[i], b, h);
      var t := tab[i] as int * b + h;
      MulTurn(tab[..i], old0[..i], old0[i], b, h, l, t % BASE, t / BASE);
      tab[i] := t % BASE;
      h := t / BASE;
      assert tab[..i + 1] == tab[..i] + [tab[i]] && old0[..i + 1] == old0[..i] + [old0[i]];
    }
  }

  /** A double-limb product plus a limb does not overflow. */
  lemma ProductFits(x: limb, b: limb, h: limb) returns (w: int)
    ensures w == x as int * b + h && 0 <= w < BASE * BASE && 0 <= w / BASE < BASE
  {
    var p: int := x as int * b;
    SquareBound(x, b, BASE - 1);
    w := p + h;
    assert 0 <= p <= (BASE - 1) * (BASE - 1);
    DoubleFits(w);
  }

  lemma SquareBound(x: int, y: int, m: int)
    requires 0 <= x <= m && 0 <= y <= m
    ensures 0 <= x * y <= m * m
  {
    MulLe(x, m, y);
    MulLe(y, m, m);
  }

  lemma DoubleFits(w: int)
    requires 0 <= w < 0x1_0000_0000_0000_0000
    ensures 0 <= w / BASE < BASE
  {
  }

  /** `mp_div1` in place: the high limb is `r`; the result is the remainder. */
  method Div1(tab: array<limb>, n: nat, b: limb, r0: limb) returns (r: limb)
    requires n <= tab.Length && r0 < b
    modifies tab
    ensures Value(old(tab[..n])) + PowB(n) * r0 == Value(tab[..n]) * b + r && r < b
    ensures tab[n..] == old(tab[n..])
  {
    ValueNone();
    hide *;
    r := r0;
    ghost var old0 := tab[..];
    var i: nat := n;
    assert old0[n..n] == [] && tab[n..n] == [];
    while i > 0
      invariant i <= n && r < b
      invariant tab[..i] == old0[..i] && tab[n..] == old0[n..]
      invariant Value(old0[i..n]) + PowB(n - i) * r0 == Value(tab[i..n]) * b + r
    {
      i := i - 1;
      ghost var q0, a0 := tab[i + 1..n], old0[i + 1..n];
      assert tab[i] == old0[i];
      QuotientFits(r, tab[i], b);
      var a1 := r as int * BASE + tab[i];
      DivTurn(a0, q0, tab[i], b, r, r0, a1 / b, a1 % b);
      tab[i] := a1 / b;
      r := a1 % b;
      assert tab[i..n] == [tab[i]] + q0 && old0[i..n] == [old0[i]] + a0;
    }
    assert tab[0..n] == tab[..n] && old0[0..n] == old0[..n];
  }

  lemma QuotientFits(r: nat, x: limb, b: nat)
    requires r < b
    ensures 0 <= (r * BASE + x) / b < BASE
  {
    var w: int := r * BASE + x;
    var q: int := w / b;
    assert w < BASE * b;
    if q >= BASE {
      MulLe(BASE, q, b);
    }
  }

  // ----- shifts -----

  /** The parts of a limb on the two sides of a shift. */
  lemma ShiftParts(x: limb, s: nat)
    requires 1 <= s < LIMB_BITS
    ensures Pow2(s) * Pow2(LIMB_BITS - s) == BASE && Pow2(s) > 0 && Pow2(LIMB_BITS - s) > 0
    ensures var lo, hi := x % Pow2(LIMB_BITS - s), x / Pow2(LIMB_BITS - s);
      (x as int * Pow2(s) == lo * Pow2(s) + BASE * hi && 0 <= hi < Pow2(s)
        && (x as int * Pow2(s)) % BASE == lo * Pow2(s)
       && 0 <= lo * Pow2(s) <= BASE - Pow2(s))
  {
    PowersOfLimb(s);
    hide *;
    BaseIs();
    ShiftAlgebra(x, Pow2(s), Pow2(LIMB_BITS - s), BASE);
  }

  lemma BaseIs()
    ensures BASE == 0x1_0000_0000 && LIMB_BITS == 32
  {
  }

  lemma PowersOfLimb(s: nat)
    requires s <= LIMB_BITS
    ensures Pow2(s) * Pow2(LIMB_BITS - s) == BASE && Pow2(s) > 0 && Pow2(LIMB_BITS - s) > 0
  {
    Pow2Add(s, LIMB_BITS - s);
    Pow2Limb();
  }

  lemma Pow2Limb()
    ensures Pow2(LIMB_BITS) == BASE
  {
    PowAdd(2, 8, 8);
    PowAdd(2, 16, 16);
    assert Pow(2, 4) == 16;
    PowAdd(2, 4, 4);
  }

  lemma ShiftAlgebra(x: int, a: int, b: int, base: int)
    requires a * b == base && a > 0 && b > 0 && 0 <= x < base
    ensures x * a == (x % b) * a + base * (x / b) && 0 <= x / b < a && (x * a) % base == (x % b) * a
    ensures 0 <= (x % b) * a <= base - a && base > 0
  {
    var lo, hi := x % b, x / b;
    assert x == hi * b + lo;
    assert (hi * b + lo) * a == lo * a + (a * b) * hi;
    MulLe(lo, b - 1, a);
    assert (b - 1) * a == base - a;
    if hi >= a {
      MulLe(a, hi, b);
    }
    DivUnique(x * a, base, hi, lo * a);
  }

  /** `mp_shl` in place: the new low bits are `low`; the result is what falls out at the top. */
  method Shl(tab: array<limb>, n: nat, shift: nat, low: limb) returns (l: limb)
    requires n <= tab.Length && 1 <= shift < LIMB_BITS && low < Pow2(shift)
    modifies tab
    ensures Value(tab[..n]) + PowB(n) * l == Value(old(tab[..n])) * Pow2(shift) + low && l < Pow2(shift)
    ensures tab[n..] == old(tab[n..])
  {
    ValueNone();
    BaseIs();
    hide *;
    l := low;
    ghost var old0 := tab[..];
    ghost var p := Pow2(shift);
    for i := 0 to n
      invariant l < Pow2(shift)
      invariant Value(tab[..i]) + PowB(i) * l == Value(old0[..i]) * p + low
      invariant tab[i..] == old0[i..]
    {
      var a := tab[i];
      assert a == old0[i];
      ShiftParts(a, shift);
      MulTurn(tab[..i], old0[..i], a, p, l, low, (a as int * p) % BASE + l, a / Pow2(LIMB_BITS - shift));
      tab[i] := (a as int * Pow2(shift)) % BASE + l;
      l := a / Pow2(LIMB_BITS - shift);
      assert tab[..i + 1] == tab[..i] + [tab[i]] && old0[..i + 1] == old0[..i] + [old0[i]];
    }
  }

  lemma MulTurn(s: seq<limb>, t: seq<limb>, x: limb, b: int, h: limb, l: int, a: limb, c: int)
    requires |s| == |t| && Value(s) + PowB(|s|) * h == Value(t) * b + l
    requires x as int * b + h == a + BASE * c
    ensures Value(s + [a]) + PowB(|s| + 1) * c == Value(t + [x]) * b + l
  {
    hide *;
    ValueSnoc(s, a);
    ValueSnoc(t, x);
    PowBStep(|s|);
    MulAlgebra(Value(s), PowB(|s|), h, Value(t), b, l, x, a, c, BASE);
  }

  /** `mp_shr` in place: the quotient and remainder of a division by a power of two. */
  method Shr(tab: array<limb>, n: nat, shift: nat, high: limb) returns (rem: limb)
    requires n <= tab.Length && 1 <= shift < LIMB_BITS && high < Pow2(shift)
    modifies tab
    ensures Value(old(tab[..n])) + PowB(n) * high == Value(tab[..n]) * Pow2(shift) + rem && rem < Pow2(shift)
    ensures tab[n..] == old(tab[n..])
  {
    ValueNone();
    BaseIs();
    hide *;
    var l: limb := high;
    ghost var old0 := tab[..];
    ghost var p := Pow2(shift);
    ghost var r: limb := high;
    var i: nat := n;
    PowersOfLimb(shift);
    SmallMod(high, p);
    assert old0[n..n] == [] && tab[n..n] == [];
    while i > 0
      invariant i <= n && r == l % p && p > 0 && r < p && p == Pow2(shift)
      invariant tab[..i] == old0[..i] && tab[n..] == old0[n..]
      invariant Value(old0[i..n]) + PowB(n - i) * high == Value(tab[i..n]) * p + r
    {
      i := i - 1;
      ghost var q0, a0 := tab[i + 1..n], old0[i + 1..n];
      var a := tab[i];
      assert a == old0[i];
      HighParts(l, a, shift);
      DivTurn(a0, q0, a, p, r, high, a / p + (l as int * Pow2(LIMB_BITS - shift)) % BASE, a % p);
      tab[i] := a / Pow2(shift) + (l as int * Pow2(LIMB_BITS - shift)) % BASE;
      r := a % p;
      l := a;
      assert tab[i..n] == [tab[i]] + q0 && old0[i..n] == [old0[i]] + a0;
    }
    assert tab[0..n] == tab[..n] && old0[0..n] == old0[..n];
    rem := l % Pow2(shift);
  }

  lemma SmallMod(x: nat, p: nat)
    requires x < p
    ensures x % p == x
  {
  }

  /** The bits that move down from limb `l` and those that stay of limb `a`. */
  lemma HighParts(l: limb, a: limb, s: nat)
    requires 1 <= s < LIMB_BITS
    ensures Pow2(s) > 0 && Pow2(LIMB_BITS - s) > 0
    ensures var p, d := Pow2(s), a / Pow2(s) + (l as int * Pow2(LIMB_BITS - s)) % BASE;
      (0 <= d < BASE && 0 <= a % p < p && a % p < BASE && BASE * (l % p) + a == d * p + a % p)
  {
    PowersOfLimb(s);
    BaseIs();
    hide *;
    HighSplit(l, a, Pow2(s), Pow2(LIMB_BITS - s), BASE);
  }

  lemma HighSplit(l: int, a: int, p: int, w: int, base: int)
    requires p * w == base && p > 0 && w > 0 && 0 <= l < base && 0 <= a < base
    ensures base > 0
    ensures var d := a / p + (l * w) % base;
      (0 <= d < base && 0 <= a % p < p && p <= base && base * (l % p) + a == d * p + a % p)
  {
    Commute(p, w);
    ShiftAlgebra(l, w, p, base);
    ShiftAlgebra(a, w, p, base);
    var y, z := DivParts(a, p);
    HighAlgebra(l % p, y, z, p, w);
    MulAtLeast(w, p);
  }

  lemma HighAlgebra(x: int, y: int, z: int, p: int, w: int)
    ensures (y + x * w) * p + z == (p * w) * x + (y * p + z)
  {
    assert (y + x * w) * p == y * p + (x * w) * p;
    assert (x * w) * p == (p * w) * x;
  }

  lemma DivTurn(a: seq<limb>, q: seq<limb>, x: limb, b: int, r: limb, r0: int, d: limb, m: int)
    requires |a| == |q| && Value(a) + PowB(|a|) * r0 == Value(q) * b + r
    requires BASE * r + x == d * b + m
    ensures Value([x] + a) + PowB(|a| + 1) * r0 == Value([d] + q) * b + m
  {
    hide *;
    ValueCons(x, a);
    ValueCons(d, q);
    PowBStep(|a|);
    DivAlgebra(Value(a), PowB(|a|), r0, Value(q), b, r, x, d, m, BASE);
  }
}
