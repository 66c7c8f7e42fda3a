/** The big numbers of dtoa.c (`mpb_t`): a length and a limb buffer updated in place. Buffer
    capacity is taken as given. */
module Bignums {
  import opened Powers
  import opened Limbs
  import opened Reciprocal

  // ----- what limb positions mean -----

  lemma PowBIsPow2(n: nat)
    ensures PowB(n) == Pow2(LIMB_BITS * n)
  {
    Pow2Limb();
    PowPow(2, LIMB_BITS, n);
  }

  lemma {:induction false} ValueZero(s: seq<limb>)
    ensures Value(s) == 0 <==> forall i :: 0 <= i < |s| ==> s[i] == 0
  {
    if s != [] {
      ValueZero(s[1..]);
      if Value(s) == 0 {
        assert forall i :: 0 <= i < |s| ==> s[i] == if i == 0 then s[0] else s[1..][i - 1];
      } else {
        assert forall i :: 0 <= i < |s| - 1 ==> s[1..][i] == s[i + 1];
      }
    }
  }

  /** Dropping limbs divides by a power of the base. */
  lemma DropLimbs(s: seq<limb>, l: nat)
    requires l <= |s|
    ensures Value(s) / PowB(l) == Value(s[l..]) && Value(s) % PowB(l) == Value(s[..l])
  {
    hide *;
    assert s == s[..l] + s[l..];
    ValueConcat(s[..l], s[l..]);
    ValueBound(s[..l]);
    DivUnique(Value(s), PowB(l), Value(s[l..]), Value(s[..l]));
  }

  /** All limbs gone. */
  lemma DropAll(s: seq<limb>, l: nat)
    requires |s| <= l
    ensures Value(s) / PowB(l) == 0 && Value(s) % PowB(l) == Value(s)
  {
    ValueBound(s);
    PowMonotone(BASE, |s|, l);
    hide Value;
    DivUnique(Value(s), PowB(l), 0, Value(s));
  }

  lemma SplitShift(shift: nat)
    ensures var l, k := shift / LIMB_BITS, shift % LIMB_BITS;
      (k < LIMB_BITS && shift == LIMB_BITS * l + k && Pow2(shift) == PowB(l) * Pow2(k))
  {
    var l, k := shift / LIMB_BITS, shift % LIMB_BITS;
    PowBIsPow2(l);
    Pow2Add(LIMB_BITS * l, k);
  }

  lemma DivByShift(v: nat, shift: nat)
    ensures var l, k := shift / LIMB_BITS, shift % LIMB_BITS;
      (v / Pow2(shift) == v / PowB(l) / Pow2(k) && v % Pow2(shift) == v % PowB(l) + PowB(l) * (v / PowB(l) % Pow2(k)))
  {
    SplitShift(shift);
    DivTwice(v, PowB(shift / LIMB_BITS), Pow2(shift % LIMB_BITS));
  }

  /** The low bits of a number are those of its lowest limb. */
  lemma LowLimb(s: seq<limb>, k: nat)
    requires s != [] && k < LIMB_BITS
    ensures Value(s) / Pow2(k) % 2 == s[0] / Pow2(k) % 2
    ensures Value(s) % Pow2(k) == s[0] % Pow2(k)
  {
    PowersOfLimb(k);
    Pow2Step(LIMB_BITS - k - 1);
    hide Pow2;
    var p, w: int, v := Pow2(k), Pow2(LIMB_BITS - k - 1), Value(s[1..]);
    assert BASE == p * (2 * w);
    LowAlgebra(s[0], v, p, w, BASE);
  }

  lemma LowAlgebra(x: nat, v: nat, p: nat, w: int, base: int)
    requires p > 0 && base == p * (2 * w)
    ensures (x + base * v) / p % 2 == x / p % 2 && (x + base * v) % p == x % p
  {
    var q, r := x / p, x % p;
    var n := x + base * v;
    assert base * v == (2 * w * v) * p by {
      assert (p * (2 * w)) * v == (2 * w * v) * p;
    }
    var t := w * v;
    assert 2 * w * v == 2 * t by {
      assert 2 * w * v == 2 * (w * v);
    }
    assert n == (q + 2 * t) * p + r by {
      assert (q + 2 * t) * p == q * p + (2 * t) * p;
    }
    DivUnique(n, p, q + 2 * t, r);
    assert (q + 2 * t) % 2 == q % 2;
  }

  class Bignum {
    const tab: array<limb>
    var len: nat

    /** At least one limb, and no leading zero limb unless the number is zero. */
    ghost predicate Valid()
      reads this, tab
    {
      1 <= len <= tab.Length && (Val() > 0 ==> tab[len - 1] != 0)
    }

    ghost function Val(): nat
      reads this, tab
      requires len <= tab.Length
    {
      Value(tab[..len])
    }

    constructor (capacity: nat)
      requires capacity >= 1
      ensures Valid() && fresh(tab) && tab.Length == capacity && Val() == 0 && len == 1
    {
      tab := new limb[capacity];
      len := 1;
      new;
      tab[0] := 0;
      assert tab[..len] == [0];
      ValueOne(0);
    }

    /** `mpb_renorm`. */
    method Renorm()
      requires 1 <= len <= tab.Length
      modifies this`len
      ensures Valid() && Val() == old(Val()) && 1 <= len <= old(len) && (Val() == 0 ==> len == 1)
    {
      while len > 1 && tab[len - 1] == 0
        invariant 1 <= len <= old(len)
        invariant Val() == old(Val())
      {
        DropTop(tab[..len]);
        assert tab[..len][..len - 1] == tab[..len - 1];
        len := len - 1;
      }
      if tab[len - 1] == 0 {
        assert tab[..len] == [0];
        ValueOne(0);
      } else {
        TopBound(tab[..len]);
      }
    }

    /** `mpb_get_bit`. */
    method GetBit(k: nat) returns (b: int)
      requires 1 <= len <= tab.Length
      ensures b == Val() / Pow2(k) % 2
    {
      hide Value;
      hide PowB;
      hide Pow2;
      var l, k1 := k / LIMB_BITS, k % LIMB_BITS;
      ghost var s := tab[..len];
      DivByShift(Value(s), k);
      if l >= len {
        DropAll(s, l);
        ZeroDiv(Pow2(k1));
        return 0;
      }
      DropLimbs(s, l);
      LowLimb(s[l..], k1);
      b := tab[l] / Pow2(k1) % 2;
    }

    /** Whether any of the `k` lowest bits is set: the or-ing loop of `mpb_shr_round`. */
    method AnyLow(k: nat) returns (bit2: bool)
      requires 1 <= len <= tab.Length
      ensures bit2 <==> Val() % Pow2(k) != 0
    {
      hide Value;
      hide PowB;
      hide Pow2;
      var l, k1 := k / LIMB_BITS, k % LIMB_BITS;
      ghost var s := tab[..len];
      bit2 := false;
      var m := if l < len then l else len;
      for i := 0 to m
        invariant bit2 <==> exists j :: 0 <= j < i && tab[j] != 0
      {
        bit2 := bit2 || tab[i] != 0;
      }
      if l < len {
        bit2 := bit2 || tab[l] % Pow2(k1) != 0;
      }
      LowBits(s, k);
      assert forall j :: 0 <= j < m ==> s[j] == tab[j];
    }

    /** Whether `mpb_shr_round` rounds up. */
    method RoundsUp(shift: nat, mode: Rounding) returns (up: bool)
      requires 1 <= len <= tab.Length && shift > 0
      ensures RoundQuotient(Val(), Pow2(shift), mode) == Val() / Pow2(shift) + (if up then 1 else 0)
      ensures mode == TowardZero ==> !up
    {
      hide Val;
      hide Pow2;
      BitsOfRemainder(Val(), shift);
      if mode == TowardZero {
        return false;
      }
      var bit1 := GetBit(shift - 1);
      if bit1 == 0 {
        return false;
      }
      if mode == NearestAway {
        return true;
      }
      var bit2 := AnyLow(shift - 1);
      if bit2 {
        return true;
      }
      var odd := GetBit(shift);
      return odd == 1;
    }

    /** Shifting whole limbs up, zeros below. */
    method MoveUp(l: nat)
      requires Valid() && len + l <= tab.Length
      modifies this`len, tab
      ensures Valid() && Val() == old(Val()) * PowB(l) && len == old(len) + l
    {
      ghost var s := tab[..len];
      CopyUp(l);
      ZeroFill(l);
      ghost var z, w := tab[..l], tab[..len + l];
      ghost var top := tab[len - 1 + l];
      assert w == z + s && w[|w| - 1] == top;
      ShiftedUp(z, s);
      TopOfValid(s, w);
      hide *;
      len := len + l;
      ValidIntro(w);
    }

    /** What makes the number valid, in terms of its limbs. */
    lemma ValidParts(s: seq<limb>)
      requires Valid() && s == tab[..len]
      ensures 1 <= len <= tab.Length && (Value(s) > 0 ==> s[|s| - 1] != 0) && Val() == Value(s)
    {
    }

    lemma ValidIntro(w: seq<limb>)
      requires 1 <= len <= tab.Length && w == tab[..len] && (Value(w) > 0 ==> w[|w| - 1] != 0)
      ensures Valid() && Val() == Value(w)
    {
    }

    method ZeroFill(l: nat)
      requires len + l <= tab.Length
      modifies tab
      ensures tab[l..len + l] == old(tab[l..len + l]) && forall j :: 0 <= j < l ==> tab[j] == 0
    {
      for k := 0 to l
        invariant tab[l..len + l] == old(tab[l..len + l])
        invariant forall j :: 0 <= j < k ==> tab[j] == 0
      {
        tab[k] := 0;
      }
    }

    method CopyUp(l: nat)
      requires Valid() && len + l <= tab.Length
      modifies tab
      ensures tab[l..len + l] == old(tab[..len])
    {
      ghost var s := tab[..len];
      var i: nat := len;
      while i > 0
        invariant i <= len
        invariant forall j :: 0 <= j < i ==> tab[j] == s[j]
        invariant forall j :: i + l <= j < len + l ==> tab[j] == s[j - l]
      {
        i := i - 1;
        tab[i + l] := tab[i];
      }
    }

    /** `mpb_shr_round` with a negative shift: a multiplication by a power of two. */
    method ShiftUp(shift: nat)
      requires Valid() && len + shift / LIMB_BITS + 1 <= tab.Length
      modifies this`len, tab
      ensures Valid() && Val() == old(Val()) * Pow2(shift) && len <= old(len) + shift / LIMB_BITS + 1
    {
      ghost var v := Val();
      var l, k := shift / LIMB_BITS, shift % LIMB_BITS;
      SplitShift(shift);
      hide Pow2;
      hide PowB;
      if k != 0 {
        PowersOfLimb(k);
        var h := Shl(tab, len, k, 0);
        tab[len] := h;
        assert tab[..len + 1] == tab[..len] + [h];
        ValueSnoc(tab[..len], h);
        hide Value;
        len := len + 1;
        Renorm();
      } else {
        ShiftNone();
      }
      assert Val() == v * Pow2(k);
      Assoc(v, Pow2(k), PowB(l));
      if l > 0 {
        MoveUp(l);
      } else {
        ShiftNone();
      }
    }

    /** Shifting whole limbs down. */
    method MoveDown(l: nat)
      requires Valid() && l < len
      modifies this`len, tab
      ensures Valid() && Val() == old(Val()) / PowB(l) && len == old(len) - l
      ensures old(Val()) > 0 ==> Val() > 0
    {
      ghost var s := tab[..len];
      ValidParts(s);
      hide *;
      len := len - l;
      for i := 0 to len
        modifies tab
        invariant forall j :: 0 <= j < i ==> tab[j] == s[j + l]
        invariant forall j :: i <= j < |s| ==> tab[j] == s[j]
      {
        tab[i] := tab[i + l];
      }
      ghost var w := tab[..len];
      assert w == s[l..] && w[|w| - 1] == s[|s| - 1];
      DropLimbs(s, l);
      DroppedTop(s, l);
      ValidIntro(w);
    }

    /** `mpb_shr_round` with a nonnegative shift and rounding toward zero, above the dropped limbs. */
    method ShiftDown(shift: nat)
      requires Valid() && shift / LIMB_BITS < len
      modifies this`len, tab
      ensures Valid() && Val() == old(Val()) / Pow2(shift) && len <= old(len)
      ensures old(Val()) > 0 && Val() == 0 ==> len == 1
    {
      var l, k := shift / LIMB_BITS, shift % LIMB_BITS;
      DivByShift(Val(), shift);
      hide Pow2;
      hide PowB;
      hide Value;
      ShiftNone();
      if l > 0 {
        MoveDown(l);
      }
      if k != 0 {
        ShiftDownBits(k);
      }
    }

    /** By less than a limb. */
    method ShiftDownBits(k: nat)
      requires Valid() && 0 < k < LIMB_BITS
      modifies this`len, tab
      ensures Valid() && Val() == old(Val()) / Pow2(k) && len <= old(len) && (Val() == 0 ==> len == 1)
    {
      ghost var v := Val();
      PowersOfLimb(k);
      hide Pow2;
      hide PowB;
      hide Value;
      var rem := Shr(tab, len, k, 0);
      ghost var q := Value(tab[..len]);
      DivUnique(v, Pow2(k), q, rem);
      Renorm();
    }

    /** Adding the rounding increment; the carry opens a new limb. */
    method Increment()
      requires Valid() && len < tab.Length && (Val() == 0 ==> len == 1)
      modifies this`len, tab
      ensures Valid() && Val() == old(Val()) + 1 && len <= old(len) + 1
    {
      ghost var s := tab[..len];
      var a := AddUi(tab, 1, len);
      if a != 0 {
        tab[len] := a;
        assert tab[..len + 1] == tab[..len] + [a];
        ValueSnoc(tab[..len], a);
        len := len + 1;
      } else {
        TopStays(s, tab[..len]);
      }
    }

    /** `mpb_shr_round`: division by a power of two with the given rounding, or multiplication when the shift
        is negative. */
    method ShrRound(shift: int, mode: Rounding)
      requires Valid() && Room(shift)
      modifies this`len, tab
      ensures Valid()
      ensures Val() == if shift <= 0 then old(Val()) * Pow2(-shift) else RoundQuotient(old(Val()), Pow2(shift), mode)
      ensures len <= old(len) + (if shift < 0 then -shift / LIMB_BITS + 1 else 1)
      ensures old(Val()) > 0 && Val() == 0 ==> len == 1
      ensures shift > 0 && mode == TowardZero ==> len <= old(len)
    {
      ghost var v := Val();
      if shift == 0 {
        ShiftNone();
        return;
      }
      if shift < 0 {
        ShiftUp(-shift);
        return;
      }
      var addOne := RoundsUp(shift, mode);
      hide Pow2;
      hide RoundQuotient;
      var l := shift / LIMB_BITS;
      if l >= len {
        AllShiftedOut(tab[..len], shift);
        len := 1;
        tab[0] := if addOne then 1 else 0;
        assert tab[..len] == [tab[0]];
        ValueOne(tab[0]);
      } else {
        NothingToRound(v, shift, mode, addOne);
        ShiftDown(shift);
        if addOne {
          Increment();
        }
      }
    }

    /** The buffer holds the result. */
    predicate Room(shift: int)
      reads this, tab
    {
      if shift < 0 then len + -shift / LIMB_BITS + 1 <= tab.Length else len < tab.Length
    }

    /** `mpb_floor_log2`. */
    method FloorLog2() returns (e: nat)
      requires Valid() && Val() > 0
      ensures Pow2(e) <= Val() < Pow2(e + 1)
    {
      var v := tab[len - 1];
      TopValue(tab[..len]);
      hide Value;
      var z := Clz32(v);
      e := len * LIMB_BITS - 1 - z;
      PowBIsPow2(len - 1);
      TopLog(Val(), v, PowB(len - 1), LIMB_BITS * (len - 1), 31 - z);
    }

    /** `tab[0] |= 1`. */
    method SetLowBit()
      requires Valid() && (Val() == 0 ==> len == 1)
      modifies tab
      ensures Valid() && Val() == if old(Val()) % 2 == 0 then old(Val()) + 1 else old(Val())
    {
      ghost var s := tab[..len];
      FirstLimb(s);
      if tab[0] % 2 == 0 {
        tab[0] := tab[0] + 1;
        assert tab[..len] == [tab[0]] + s[1..];
        FirstLimb(tab[..len]);
        assert tab[..len][1..] == s[1..];
      }
    }

    /** `mp_mul1` on the whole number; the carry opens a new limb. */
    method MulSmall(b: limb)
      requires Valid() && Val() > 0 && b > 0 && len < tab.Length
      modifies this`len, tab
      ensures Valid() && Val() == old(Val()) * b && old(len) <= len <= old(len) + 1
    {
      ghost var s := tab[..len];
      var h := Mul1(tab, len, b, 0);
      if h != 0 {
        tab[len] := h;
        assert tab[..len + 1] == tab[..len] + [h];
        ValueSnoc(tab[..len], h);
        hide Value;
        len := len + 1;
      } else {
        TopBound(s);
        TopBound(tab[..len]);
        hide Value;
        MulAtLeast(b, Value(s));
      }
    }

    /** `mp_div1norm` on the whole number, and the leading zero limbs dropped. */
    method DivSmall(b: limb, bInv: limb, shift: nat, ghost b0: nat) returns (r: limb)
      requires Valid() && shift < LIMB_BITS && b0 > 0
      requires 0x8000_0000 <= b && b == b0 * Pow2(shift) && bInv == ReciprocalOf(b)
      modifies this`len, tab
      ensures Valid() && Val() == old(Val()) / b0 && r == old(Val()) % b0 && len <= old(len)
              && (Val() == 0 ==> len == 1)
    {
      hide ReciprocalOf;
      hide Pow2;
      ghost var v := Val();
      r := Div1Norm(tab, len, b, 0, bInv, shift, b0);
      hide Value;
      DivUnique(v, b0, Value(tab[..len]), r);
      Renorm();
    }

    /** `mp_div1` on the whole number, and the leading zero limbs dropped. */
    method DivPlain(b: limb) returns (r: limb)
      requires Valid() && b > 0
      modifies this`len, tab
      ensures Valid() && Val() == old(Val()) / b && r == old(Val()) % b && len <= old(len)
    {
      ghost var v := Val();
      r := Div1(tab, len, b, 0);
      hide Value;
      DivUnique(v, b, Value(tab[..len]), r);
      Renorm();
    }

    /** `mpb_mul1_base`: times the base plus `a`; base 0 stands for 2^32. */
    method Mul1Base(radixBase: limb, a: limb)
      requires Valid() && (Val() == 0 ==> len == 1) && len + 2 <= tab.Length
      modifies this`len, tab
      ensures Valid() && (Val() == 0 ==> len == 1) && len <= old(len) + 1
      ensures Val() == old(Val()) * (if radixBase == 0 then BASE else radixBase) + a
    {
      if tab[0] == 0 && len == 1 {
        assert tab[..len] == [0];
        ValueOne(0);
        tab[0] := a;
        assert tab[..len] == [a];
        ValueOne(a);
      } else if radixBase == 0 {
        ShiftLimb(a);
        Renorm();
      } else {
        var h := Mul1(tab, len, radixBase, a);
        tab[len] := h;
        assert tab[..len + 1] == tab[..len] + [h];
        ValueSnoc(tab[..len], h);
        hide Value;
        len := len + 1;
        Renorm();
      }
    }

    method ShiftLimb(a: limb)
      requires Valid() && len + 2 <= tab.Length
      modifies this`len, tab
      ensures 1 <= len <= tab.Length && Val() == old(Val()) * BASE + a && len == old(len) + 1
    {
      ghost var s := tab[..len];
      var i: int := len;
      while i >= 0
        modifies tab
        invariant -1 <= i <= len
        invariant forall j :: 0 <= j <= i && j < len ==> tab[j] == s[j]
        invariant forall j :: i < j < len ==> tab[j + 1] == s[j]
      {
        tab[i + 1] := tab[i];
        i := i - 1;
      }
      tab[0] := a;
      len := len + 1;
      assert tab[..len] == [a] + s;
      ValueCons(a, s);
    }

    method Clear()
      requires tab.Length >= 1
      modifies this`len, tab
      ensures Valid() && Val() == 0 && len == 1
    {
      len := 1;
      tab[0] := 0;
      assert tab[..len] == [0];
      ValueOne(0);
    }

    /** `mpb_set_u64`. */
    method SetU64(m: int)
      requires 0 <= m < 0x1_0000_0000_0000_0000 && tab.Length >= 2
      modifies this`len, tab
      ensures Valid() && Val() == m && len <= 2 && (m == 0 ==> len == 1)
    {
      tab[0] := m % BASE;
      tab[1] := m / BASE;
      len := if tab[1] == 0 then 1 else 2;
      ValueTwo(tab[0], tab[1]);
      if len == 1 {
        assert tab[..len] == [tab[0]];
        ValueOne(tab[0]);
      } else {
        assert tab[..len] == [tab[0], tab[1]];
      }
    }

    /** `mpb_get_u64` of a number of at most two limbs. */
    method GetU64() returns (m: int)
      requires Valid() && len <= 2
      ensures m == Val()
    {
      if len == 1 {
        assert tab[..len] == [tab[0]];
        ValueOne(tab[0]);
        m := tab[0];
      } else {
        assert tab[..len] == [tab[0], tab[1]];
        ValueTwo(tab[0], tab[1]);
        m := tab[0] as int + tab[1] as int * BASE;
      }
    }
  }

  lemma TopOfValid(s: seq<limb>, w: seq<limb>)
    requires s != [] && w != [] && (Value(s) > 0 ==> s[|s| - 1] != 0) && w[|w| - 1] == s[|s| - 1]
    requires Value(w) > 0 ==> Value(s) > 0
    ensures Value(w) > 0 ==> w[|w| - 1] != 0
  {
  }

  lemma FirstLimb(s: seq<limb>)
    requires s != []
    ensures Value(s) == s[0] + BASE * Value(s[1..]) && Value(s) % 2 == s[0] % 2
  {
  }

  lemma ShiftedUp(z: seq<limb>, s: seq<limb>)
    requires s != [] && forall j :: 0 <= j < |z| ==> z[j] == 0
    ensures Value(z + s) == Value(s) * PowB(|z|) && (z + s)[|z| + |s| - 1] == s[|s| - 1]
    ensures Value(z + s) > 0 ==> Value(s) > 0
  {
    ValueZero(z);
    ValueConcat(z, s);
    hide Value;
  }

  lemma ValueTwo(x: limb, y: limb)
    ensures Value([x, y]) == x + BASE * y
  {
    assert [x, y] == [x] + [y];
    ValueCons(x, [y]);
    ValueOne(y);
  }

  lemma AllShiftedOut(s: seq<limb>, shift: nat)
    requires |s| <= shift / LIMB_BITS
    ensures Value(s) / Pow2(shift) == 0
  {
    DivByShift(Value(s), shift);
    DropAll(s, shift / LIMB_BITS);
    ZeroDiv(Pow2(shift % LIMB_BITS));
  }

  /** Zero never rounds up. */
  lemma NothingToRound(v: nat, shift: nat, mode: Rounding, up: bool)
    requires RoundQuotient(v, Pow2(shift), mode) == v / Pow2(shift) + (if up then 1 else 0)
    ensures up ==> v > 0
  {
    if v == 0 {
      ZeroDiv(Pow2(shift));
      ZeroDiv(Pow2(shift));
    }
  }

  /** Leading zero bits of a limb. */
  method Clz32(v: limb) returns (z: nat)
    requires v > 0
    ensures z < 32 && Pow2(31 - z) <= v < Pow2(32 - z)
  {
    z := 0;
    Pow2Limb();
    ghost var p := Pow2(31);
    Pow2Step(31);
    var top := 0x8000_0000;
    while v < top
      invariant z < 32 && top == Pow2(31 - z) && v < 2 * top && Pow2(32 - z) == 2 * Pow2(31 - z)
      decreases top
    {
      ClzTurn(z, v);
      z := z + 1;
      top := top / 2;
    }
  }

  lemma ClzTurn(z: nat, v: nat)
    requires z < 32 && 0 < v < Pow2(31 - z)
    ensures z < 31 && Pow2(31 - z) == 2 * Pow2(30 - z) && Pow2(31 - z) / 2 == Pow2(30 - z)
  {
    ShiftNone();
    if z < 31 {
      Pow2Step(30 - z);
    }
  }

  lemma TopValue(s: seq<limb>)
    requires s != []
    ensures PowB(|s| - 1) * s[|s| - 1] <= Value(s) < PowB(|s| - 1) * (s[|s| - 1] as int + 1)
  {
    hide *;
    var h, x := s[..|s| - 1], s[|s| - 1];
    assert s == h + [x];
    ValueSnoc(h, x);
    ValueBound(h);
    MulSuccessor(PowB(|s| - 1), x);
  }

  lemma MulSuccessor(p: int, x: int)
    ensures p * (x + 1) == p * x + p
  {
  }

  lemma TopLog(v: nat, x: int, w: nat, a: nat, k: nat)
    requires w == Pow2(a) && w * x <= v < w * (x + 1) && Pow2(k) <= x < Pow2(k + 1)
    ensures Pow2(a + k) <= v < Pow2(a + k + 1)
  {
    hide *;
    Pow2Add(a, k);
    Pow2Add(a, k + 1);
    MulLe(Pow2(k), x, w);
    MulLe(x + 1, Pow2(k + 1), w);
    Commute(w, x);
    Commute(w, x + 1);
    Commute(w, Pow2(k));
    Commute(w, Pow2(k + 1));
  }

  /** A leading limb that is not zero makes the number at least its place value. */
  lemma TopBound(s: seq<limb>)
    requires s != []
    ensures if s[|s| - 1] == 0 then Value(s) < PowB(|s| - 1) else Value(s) >= PowB(|s| - 1)
  {
    var h, x := s[..|s| - 1], s[|s| - 1];
    assert s == h + [x];
    ValueSnoc(h, x);
    ValueBound(h);
    hide Value;
    hide PowB;
    if x != 0 {
      MulAtLeast(x, PowB(|s| - 1));
    }
  }

  lemma DroppedTop(s: seq<limb>, l: nat)
    requires l < |s| && (Value(s) > 0 ==> s[|s| - 1] != 0)
    ensures Value(s) == 0 ==> Value(s[l..]) == 0
    ensures Value(s) > 0 ==> Value(s[l..]) > 0
  {
    if Value(s) == 0 {
      ValueZero(s);
      ValueZero(s[l..]);
    } else {
      TopBound(s[l..]);
    }
  }

  /** Adding one keeps the leading limb. */
  lemma TopStays(s: seq<limb>, t: seq<limb>)
    requires |s| == |t| > 0 && Value(t) == Value(s) + 1
    requires if Value(s) > 0 then s[|s| - 1] != 0 else |s| == 1
    ensures t[|t| - 1] != 0
  {
    TopBound(s);
    TopBound(t);
    ShiftNone();
  }

  lemma ShiftNone()
    ensures Pow2(0) == 1 && PowB(0) == 1
  {
  }

  /** The remainder of a division by 2^shift, by its top bit and the bits below. */
  lemma BitsOfRemainder(v: nat, shift: nat)
    requires shift > 0
    ensures Pow2(shift) == 2 * Pow2(shift - 1)
    ensures v % Pow2(shift) == v % Pow2(shift - 1) + Pow2(shift - 1) * (v / Pow2(shift - 1) % 2)
    ensures v % Pow2(shift - 1) < Pow2(shift - 1) && 0 <= v / Pow2(shift - 1) % 2 < 2
  {
    Pow2Step(shift - 1);
    hide Pow2;
    DivTwice(v, Pow2(shift - 1), 2);
  }

  /** The low bits of a number are the whole limbs below and the low bits of one limb. */
  lemma LowBits(s: seq<limb>, k: nat)
    ensures var l, k1 := k / LIMB_BITS, k % LIMB_BITS;
      Value(s) % Pow2(k) != 0
      <==> (exists j :: 0 <= j < |s| && j < l && s[j] != 0) || (l < |s| && s[l] % Pow2(k1) != 0)
  {
    var l, k1 := k / LIMB_BITS, k % LIMB_BITS;
    DivByShift(Value(s), k);
    if l < |s| {
      DropLimbs(s, l);
      LowLimb(s[l..], k1);
      ValueZero(s[..l]);
      hide *;
      var low, p, x := Value(s[..l]), PowB(l), s[l] % Pow2(k1);
      assert Value(s) % Pow2(k) == low + p * x;
      if x != 0 {
        MulAtLeast(x, p);
      }
      assert low == 0 <==> forall j :: 0 <= j < l ==> s[j] == 0 by {
        assert forall j :: 0 <= j < l ==> s[..l][j] == s[j];
      }
    } else {
      DropAll(s, l);
      ZeroDiv(Pow2(k1));
      ValueZero(s);
    }
  }

  lemma DropTop(s: seq<limb>)
    requires s != [] && s[|s| - 1] == 0
    ensures Value(s) == Value(s[..|s| - 1])
  {
    assert s == s[..|s| - 1] + [s[|s| - 1]];
    ValueSnoc(s[..|s| - 1], 0);
  }
}
