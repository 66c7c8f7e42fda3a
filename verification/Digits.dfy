/** Printing and reading digits: `output_digits`, `mpb_mul1_base` as `js_atod` uses it, `u64toa`.
    Characters are byte codes. */
module Digits {
  import opened Powers
  import opened Limbs
  import opened Reciprocal
  import opened Bignums
  import opened FloatScaling

  function DigitChar(d: nat): int {
    if d < 10 then d + 48 else d + 87
  }

  /** `to_digit`: 36 for a character that is no digit in any radix. */
  function ToDigit(c: int): (d: nat)
    ensures d <= 36
  {
    if 48 <= c <= 57 then c - 48
    else if 65 <= c <= 90 then c - 65 + 10
    else if 97 <= c <= 122 then c - 97 + 10
    else 36
  }

  lemma DigitRoundTrip(d: nat)
    requires d < 36
    ensures ToDigit(DigitChar(d)) == d
  {
  }

  const LOWER_CASE: string := "0123456789abcdefghijklmnopqrstuvwxyz"
  const UPPER_CASE: string := "0123456789ABCDEFGHIJKLMNOPQRSTUVWXYZ"

  /** The characters printed for the digits. */
  lemma DigitCharLaw(d: nat)
    requires d < 36
    ensures |LOWER_CASE| == 36 && DigitChar(d) == LOWER_CASE[d] as int
  {
    LowerIs(d);
  }

  /** The characters read as a digit: its character in either case, and no other. */
  lemma ToDigitLaw(c: int, d: nat)
    requires d < 36
    ensures |LOWER_CASE| == |UPPER_CASE| == 36
    ensures ToDigit(c) == d <==> c == LOWER_CASE[d] as int || c == UPPER_CASE[d] as int
  {
    UpperIs(d);
    LowerIs(d);
  }

  lemma UpperIs(d: nat)
    requires d < 36
    ensures |UPPER_CASE| == 36 && UPPER_CASE[d] as int == if d < 10 then d + 48 else d + 55
  {
  }

  lemma LowerIs(d: nat)
    requires d < 36
    ensures |LOWER_CASE| == 36 && LOWER_CASE[d] as int == if d < 10 then d + 48 else d + 87
  {
  }

  /** The `n` lowest digits of `v`, most significant first. */
  function DigitsOf(v: nat, radix: nat, n: nat): (s: seq<int>)
    requires radix > 0
    ensures |s| == n
    decreases n
  {
    if n == 0 then [] else DigitsOf(Quotient(v, radix), radix, n - 1) + [DigitChar(Remainder(v, radix))]
  }

  /** The number a digit string denotes. */
  function ReadDigits(s: seq<int>, radix: nat): nat {
    if s == [] then 0 else ReadDigits(s[..|s| - 1], radix) * radix + ToDigit(s[|s| - 1])
  }

  lemma {:induction false} ReadBack(v: nat, radix: nat, n: nat)
    requires 1 < radix <= 36
    ensures Pow(radix, n) > 0 && ReadDigits(DigitsOf(v, radix, n), radix) == v % Pow(radix, n)
    decreases n
  {
    if n == 0 {
      assert Pow(radix, 0) == 1;
    } else {
      var q, d := Quotient(v, radix), Remainder(v, radix);
      assert d < radix;
      DivTwice(v, radix, Pow(radix, n - 1));
      hide Quotient;
      hide Remainder;
      ReadBack(q, radix, n - 1);
      var s := DigitsOf(v, radix, n);
      assert s[..n - 1] == DigitsOf(q, radix, n - 1);
      DigitRoundTrip(d);
      Commute(q % Pow(radix, n - 1), radix);
    }
  }

  /** The digits above the `i` lowest are those of the quotient. */
  lemma {:induction false} DigitsSplit(v: nat, radix: nat, i: nat, n: nat)
    requires radix > 0
    ensures Pow(radix, i) > 0
    ensures DigitsOf(v, radix, n + i) == DigitsOf(Quotient(v, Pow(radix, i)), radix, n) + DigitsOf(v, radix, i)
    decreases i
  {
    if i == 0 {
      assert Pow(radix, 0) == 1 && Quotient(v, 1) == v;
    } else {
      var q := Quotient(v, radix);
      DivTwice(v, radix, Pow(radix, i - 1));
      assert Quotient(v, Pow(radix, i)) == Quotient(q, Pow(radix, i - 1));
      hide Quotient;
      hide Remainder;
      DigitsSplit(q, radix, i - 1, n);
      var a, b, c := DigitsOf(Quotient(v, Pow(radix, i)), radix, n), DigitsOf(q, radix, i - 1),
        [DigitChar(Remainder(v, radix))];
      assert (a + b) + c == a + (b + c);
    }
  }

  /** The low digits only depend on the remainder. */
  lemma {:induction false} DigitsOfRemainder(v: nat, radix: nat, m: nat, n: nat)
    requires radix > 0 && n <= m
    ensures Pow(radix, m) > 0 && DigitsOf(Remainder(v, Pow(radix, m)), radix, n) == DigitsOf(v, radix, n)
    decreases n
  {
    if n > 0 {
      RemainderParts(v, radix, Pow(radix, m - 1));
      assert Pow(radix, m) == radix * Pow(radix, m - 1);
      DigitsOfRemainder(Quotient(v, radix), radix, m - 1, n - 1);
      hide Quotient;
      hide Remainder;
    }
  }

  lemma RemainderParts(v: nat, a: nat, b: nat)
    requires a > 0 && b > 0
    ensures a * b > 0 && Remainder(Remainder(v, a * b), a) == Remainder(v, a)
    ensures Quotient(Remainder(v, a * b), a) == Remainder(Quotient(v, a), b)
  {
    DivTwice(v, a, b);
    var r, x := v % a, v / a % b;
    Commute(a, x);
    DivUnique(v % (a * b), a, x, r);
  }

  /** `limb_to_a`, `u32toa_len`, and for a power of two radix `u64toa_bin_len`: fixed-width digits. */
  method LimbToA(buf: array<int>, off: nat, n0: nat, radix: nat, len: nat)
    requires 1 < radix && off + len <= buf.Length
    modifies buf
    ensures buf[off..off + len] == DigitsOf(n0, radix, len)
    ensures forall j :: 0 <= j < off || off + len <= j < buf.Length ==> buf[j] == old(buf[j])
  {
    hide Quotient;
    hide Remainder;
    var n: nat, i: nat := n0, len;
    assert buf[off + i..off + len] == [];
    while i > 0
      invariant i <= len
      invariant DigitsOf(n, radix, i) + buf[off + i..off + len] == DigitsOf(n0, radix, len)
      invariant forall j :: 0 <= j < off || off + len <= j < buf.Length ==> buf[j] == old(buf[j])
    {
      i := i - 1;
      ghost var done, high := buf[off + i + 1..off + len], DigitsOf(Quotient(n, radix), radix, i);
      var digit := Remainder(n, radix);
      ghost var c := DigitChar(digit);
      assert DigitsOf(n, radix, i + 1) == high + [c];
      assert (high + [c]) + done == high + ([c] + done);
      n := Quotient(n, radix);
      buf[off + i] := DigitChar(digit);
      assert buf[off + i..off + len] == [c] + done;
    }
    assert buf[off + i..off + len] == buf[off..off + len];
  }

  /** The digit of place `k`. */
  lemma {:induction false} DigitAt(v: nat, radix: nat, n: nat, k: nat)
    requires radix > 0 && k < n
    ensures Pow(radix, k) > 0 && DigitsOf(v, radix, n)[n - 1 - k] == DigitChar(v / Pow(radix, k) % radix)
    decreases n
  {
    if k == 0 {
      assert Pow(radix, 0) == 1;
    } else {
      DigitAt(Quotient(v, radix), radix, n - 1, k - 1);
      DivTwice(v, radix, Pow(radix, k - 1));
    }
  }

  // ----- output_digits -----

  lemma NextChunk(v: nat, radix: nat, i: nat, n: nat)
    requires radix > 0
    ensures Pow(radix, i) > 0 && Pow(radix, n) > 0 && Pow(radix, i + n) > 0
    ensures Quotient(v, Pow(radix, i + n)) == Quotient(Quotient(v, Pow(radix, i)), Pow(radix, n))
  {
    PowAdd(radix, i, n);
    DivTwice(v, Pow(radix, i), Pow(radix, n));
  }

  /** For a power of two radix the lowest limb holds the digits of a chunk. */
  lemma LowLimbDigits(v: nat, radix: nat, bits: nat, perLimb: nat, x: nat, n: nat)
    requires radix == Pow2(bits) && bits * perLimb <= LIMB_BITS && n <= perLimb && x == v % BASE
    ensures radix > 0 && Pow(radix, perLimb) == Pow2(bits * perLimb) && DigitsOf(x, radix, n) == DigitsOf(v, radix, n)
  {
    PowPow(2, bits, perLimb);
    PowersOfLimb(bits * perLimb);
    var p, w := Pow2(bits * perLimb), Pow2(LIMB_BITS - bits * perLimb);
    RemainderParts(v, p, w);
    assert Remainder(v, BASE) == x;
    hide Pow2;
    hide Pow;
    hide Remainder;
    DigitsOfRemainder(v, radix, perLimb, n);
    DigitsOfRemainder(x, radix, perLimb, n);
  }

  function MinOf(a: nat, b: nat): nat { if a < b then a else b }

  /** One chunk of digits in front of the digits written so far. */
  method WriteChunk(buf: array<int>, nDigits: nat, n: nat, x: nat, radix: nat, ghost count: nat, ghost v: nat)
    requires 1 < radix && n <= nDigits <= count <= buf.Length && Pow(radix, count - nDigits) > 0
    requires DigitsOf(x, radix, n) == DigitsOf(Quotient(v, Pow(radix, count - nDigits)), radix, n)
    requires buf[nDigits..count] == DigitsOf(v, radix, count - nDigits)
    modifies buf
    ensures buf[nDigits - n..count] == DigitsOf(v, radix, count - nDigits + n)
    ensures forall j :: count <= j < buf.Length ==> buf[j] == old(buf[j])
  {
    hide *;
    ghost var done := buf[nDigits..count];
    DigitsSplit(v, radix, count - nDigits, n);
    LimbToA(buf, nDigits - n, x, radix, n);
    assert buf[nDigits - n..count] == buf[nDigits - n..nDigits - n + n] + buf[nDigits..count];
    assert buf[nDigits..count] == done;
  }

  /** The loop of `output_digits` for a radix that is a power of two. */
  method OutputBinary(buf: array<int>, a: Bignum, radix: nat, bits: nat, perLimb: nat, count: nat)
    requires a.Valid() && a.len < a.tab.Length && 1 <= count <= buf.Length
    requires radix == Pow2(bits) && bits >= 1 && perLimb >= 1 && bits * perLimb <= LIMB_BITS
    modifies buf, a, a.tab
    ensures buf[..count] == DigitsOf(old(a.Val()), radix, count)
    ensures forall j :: count <= j < buf.Length ==> buf[j] == old(buf[j])
  {
    ghost var v := a.Val();
    RadixAtLeastTwo(bits);
    WholeQuotient(v, radix);
    hide Bignum.Val;
    hide Quotient;
    hide Remainder;
    hide Pow;
    hide Pow2;
    var nDigits: nat := count;
    assert buf[nDigits..count] == [];
    while true
      invariant 0 < nDigits <= count && a.Valid() && a.len < a.tab.Length && Pow(radix, count - nDigits) > 0
      invariant a.Val() == Quotient(v, Pow(radix, count - nDigits))
      invariant buf[nDigits..count] == DigitsOf(v, radix, count - nDigits)
      invariant forall j :: count <= j < buf.Length ==> buf[j] == old(buf[j])
      decreases nDigits
    {
      var n := MinOf(nDigits, perLimb);
      LowLimbIs(a);
      LowLimbDigits(a.Val(), radix, bits, perLimb, a.tab[0], n);
      WriteChunk(buf, nDigits, n, a.tab[0], radix, count, v);
      NextChunk(v, radix, count - nDigits, n);
      nDigits := nDigits - n;
      if nDigits == 0 {
        break;
      }
      DropChunk(a, perLimb, bits, radix);
    }
    assert buf[0..count] == buf[..count];
  }

  method DropChunk(a: Bignum, perLimb: nat, bits: nat, radix: nat)
    requires a.Valid() && a.len < a.tab.Length && bits >= 1 && perLimb >= 1
    requires Pow(radix, perLimb) == Pow2(bits * perLimb)
    modifies a, a.tab
    ensures a.Valid() && a.len <= old(a.len) && Pow(radix, perLimb) > 0
    ensures a.Val() == Quotient(old(a.Val()), Pow(radix, perLimb))
  {
    hide Bignum.Val;
    hide Pow;
    hide Pow2;
    hide Quotient;
    hide RoundQuotient;
    Commute(perLimb, bits);
    MulPositive(perLimb, bits);
    FloorIs(a.Val(), Pow2(perLimb * bits));
    a.ShrRound(perLimb * bits, TowardZero);
  }

  lemma RadixAtLeastTwo(bits: nat)
    requires bits >= 1
    ensures Pow2(bits) >= 2
  {
    PowMonotone(2, 1, bits);
    assert Pow(2, 1) == 2 * Pow(2, 0) == 2;
  }

  lemma WholeQuotient(v: nat, radix: nat)
    ensures Pow(radix, 0) == 1 && Quotient(v, 1) == v && DigitsOf(v, if radix > 0 then radix else 1, 0) == []
  {
  }

  lemma LowLimbIs(a: Bignum)
    requires a.Valid()
    ensures a.tab[0] == a.Val() % BASE
  {
    FirstLimb(a.tab[..a.len]);
  }

  lemma FloorIs(v: nat, d: nat)
    requires d > 0
    ensures RoundQuotient(v, d, TowardZero) == Quotient(v, d)
  {
  }

  /** The loop of `output_digits` for any other radix: one limb's worth of digits a division. */
  method OutputPlain(buf: array<int>, a: Bignum, radix: nat, radixBase: limb, perLimb: nat, count: nat)
    requires a.Valid() && count <= buf.Length
    requires 1 < radix && perLimb >= 1 && radixBase == Pow(radix, perLimb)
    modifies buf, a, a.tab
    ensures buf[..count] == DigitsOf(old(a.Val()), radix, count)
    ensures forall j :: count <= j < buf.Length ==> buf[j] == old(buf[j])
  {
    ghost var v := a.Val();
    WholeQuotient(v, radix);
    hide Bignum.Val;
    hide Quotient;
    hide Remainder;
    hide Pow;
    var nDigits: nat := count;
    assert buf[nDigits..count] == [];
    while nDigits != 0
      invariant nDigits <= count && a.Valid() && Pow(radix, count - nDigits) > 0
      invariant nDigits > 0 ==> a.Val() == Quotient(v, Pow(radix, count - nDigits))
      invariant buf[nDigits..count] == DigitsOf(v, radix, count - nDigits)
      invariant forall j :: count <= j < buf.Length ==> buf[j] == old(buf[j])
      decreases nDigits
    {
      var n := MinOf(nDigits, perLimb);
      ghost var u := a.Val();
      QuotientIs(u, radixBase);
      var r := a.DivPlain(radixBase);
      DigitsOfRemainder(u, radix, perLimb, n);
      WriteChunk(buf, nDigits, n, r, radix, count, v);
      NextChunk(v, radix, count - nDigits, n);
      nDigits := nDigits - n;
    }
    assert buf[0..count] == buf[..count];
  }

  lemma QuotientIs(u: nat, d: nat)
    requires d > 0
    ensures Quotient(u, d) == u / d && Remainder(u, d) == u % d
  {
  }

  function WithDot(s: seq<int>, dot: nat): seq<int> {
    if dot < |s| then s[..dot] + ['.' as int] + s[dot..] else s
  }

  /** The character at the place of digit `k` among `n`, past the dot where there is one. */
  predicate Shows(s: seq<int>, v: nat, radix: nat, n: nat, dot: nat, k: nat)
    requires 1 < radix <= 36 && k < n
  {
    var i := n - 1 - k;
    var j := if i < dot then i else i + 1;
    j < |s| && Pow(radix, k) > 0 && s[j] == LOWER_CASE[v / Pow(radix, k) % radix] as int
  }

  /** What is printed, character by character. */
  lemma PrintedLaw(v: nat, radix: nat, n: nat, dot: nat)
    requires 1 < radix <= 36 && dot <= n
    ensures var s := WithDot(DigitsOf(v, radix, n), dot);
      && |s| == (if dot < n then n + 1 else n) && (dot < n ==> s[dot] == '.' as int)
      && forall k :: 0 <= k < n ==> Shows(s, v, radix, n, dot, k)
  {
    var s, t := WithDot(DigitsOf(v, radix, n), dot), DigitsOf(v, radix, n);
    forall k | 0 <= k < n ensures Shows(s, v, radix, n, dot, k) {
      ShownAt(v, radix, n, dot, k, s);
    }
  }

  lemma ShownAt(v: nat, radix: nat, n: nat, dot: nat, k: nat, s: seq<int>)
    requires 1 < radix <= 36 && dot <= n && k < n && s == WithDot(DigitsOf(v, radix, n), dot)
    ensures Shows(s, v, radix, n, dot, k)
  {
    hide DigitsOf;
    hide Pow;
    hide DigitChar;
    DigitAt(v, radix, n, k);
    DigitCharLaw(v / Pow(radix, k) % radix);
  }

  /** `output_digits`: the `nDigits` lowest digits of `a`, with a dot inside unless it would be at the end.
      `bits` is 0 unless the radix is the `bits`-th power of two. */
  method OutputDigits(buf: array<int>, a: Bignum, radix: nat, bits: nat, radixBase: limb, perLimb: nat, nDigits: nat,
                      dotPos: nat)
    returns (len: nat)
    requires a.Valid() && a.len < a.tab.Length && 1 <= nDigits < buf.Length && dotPos <= nDigits
    requires 1 < radix && perLimb >= 1
    requires if bits > 0 then radix == Pow2(bits) && bits * perLimb <= LIMB_BITS else radixBase == Pow(radix, perLimb)
    modifies buf, a, a.tab
    ensures len <= buf.Length && buf[..len] == WithDot(DigitsOf(old(a.Val()), radix, nDigits), dotPos)
    ensures len == if dotPos < nDigits then nDigits + 1 else nDigits
    ensures dotPos < nDigits ==> buf[dotPos] == '.' as int
    ensures radix <= 36 ==> forall k :: 0 <= k < nDigits ==> Shows(buf[..len], old(a.Val()), radix, nDigits, dotPos, k)
  {
    hide Pow;
    hide Pow2;
    hide Bignum.Val;
    hide Shows;
    ghost var v := a.Val();
    if bits != 0 {
      OutputBinary(buf, a, radix, bits, perLimb, nDigits);
    } else {
      OutputPlain(buf, a, radix, radixBase, perLimb, nDigits);
    }
    len := InsertDot(buf, nDigits, dotPos);
    if radix <= 36 {
      PrintedLaw(v, radix, nDigits, dotPos);
    }
  }

  method InsertDot(buf: array<int>, n: nat, dotPos: nat) returns (len: nat)
    requires n < buf.Length && dotPos <= n
    modifies buf
    ensures len <= buf.Length && buf[..len] == WithDot(old(buf[..n]), dotPos)
  {
    len := n;
    ghost var s := buf[..n];
    if dotPos != n {
      var i := n;
      while i > dotPos
        invariant dotPos <= i <= n
        invariant forall j :: 0 <= j < i && j < n ==> buf[j] == s[j]
        invariant forall j :: i < j <= n ==> buf[j] == s[j - 1]
      {
        buf[i] := buf[i - 1];
        i := i - 1;
      }
      buf[dotPos] := '.' as int;
      len := len + 1;
      ghost var w := WithDot(s, dotPos);
      assert forall j :: 0 <= j < len ==> buf[j] == w[j];
      assert buf[..len] == w;
    }
  }

  // ----- reading -----

  predicate AllDigits(s: seq<int>, radix: nat) {
    forall i :: 0 <= i < |s| ==> ToDigit(s[i]) < radix
  }

  lemma ReadMore(s: seq<int>, i: nat, radix: nat)
    requires i < |s|
    ensures ReadDigits(s[..i + 1], radix) == ReadDigits(s[..i], radix) * radix + ToDigit(s[i])
  {
    assert s[..i + 1][..i] == s[..i];
  }

  /** The accumulation of `js_atod`: digits gather in one limb, full limbs go into the big number. */
  method Accumulate(tmp0: Bignum, s: seq<int>, radix: nat, radixBase: limb, perLimb: nat)
    requires tmp0.tab.Length >= |s| + 3 && AllDigits(s, radix)
    requires 1 < radix <= 36 && perLimb >= 1 && Pow(radix, perLimb) <= BASE
    requires radixBase == if Pow(radix, perLimb) == BASE then 0 else Pow(radix, perLimb)
    modifies tmp0, tmp0.tab
    ensures tmp0.Valid() && tmp0.Val() == ReadDigits(s, radix)
  {
    hide *;
    tmp0.Clear();
    WholeQuotient(0, radix);
    ReadNone(radix);
    var curLimb: nat, limbDigits: nat := 0, 0;
    var i: nat := 0;
    assert s[..0] == [];
    while i < |s|
      invariant i <= |s| && limbDigits < perLimb && curLimb < Pow(radix, limbDigits)
      invariant tmp0.len <= 1 + i && tmp0.Valid() && (tmp0.Val() == 0 ==> tmp0.len == 1)
      invariant ReadDigits(s[..i], radix) == tmp0.Val() * Pow(radix, limbDigits) + curLimb
    {
      var c := ToDigit(s[i]);
      DigitBelow(s, i, radix);
      ReadMore(s, i, radix);
      AppendDigit(tmp0.Val(), radix, limbDigits, curLimb, c, perLimb);
      curLimb := (curLimb * radix + c) % BASE;
      limbDigits := limbDigits + 1;
      if limbDigits == perLimb {
        tmp0.Mul1Base(radixBase, curLimb);
        curLimb := 0;
        limbDigits := 0;
      }
      i := i + 1;
    }
    assert s[..i] == s;
    if limbDigits != 0 {
      PowBelow(radix, limbDigits, perLimb);
      var b := PowUi(radix, limbDigits);
      tmp0.Mul1Base(b, curLimb);
    }
  }

  lemma ReadNone(radix: nat)
    ensures ReadDigits([], radix) == 0 && BASE == 0x1_0000_0000 && U64 == 0x1_0000_0000_0000_0000
  {
  }

  lemma DigitBelow(s: seq<int>, i: nat, radix: nat)
    requires AllDigits(s, radix) && i < |s|
    ensures ToDigit(s[i]) < radix
  {
  }

  lemma PowBelow(radix: nat, n: nat, perLimb: nat)
    requires radix > 1 && n < perLimb && Pow(radix, perLimb) <= BASE
    ensures 0 < Pow(radix, n) < BASE && Pow(radix, n) % U64 == Pow(radix, n)
  {
    PowMonotone(radix, n + 1, perLimb);
    var p := Pow(radix, n);
    assert Pow(radix, n + 1) == radix * p;
    hide Pow;
    MulLe(2, radix, p);
    SmallMod(p, U64);
  }

  /** One digit more in the limb does not overflow it. */
  lemma AppendDigit(v: nat, radix: nat, k: nat, cur: nat, c: nat, perLimb: nat)
    requires 1 < radix && k < perLimb && Pow(radix, perLimb) <= BASE && cur < Pow(radix, k) && c < radix
    ensures cur * radix + c < Pow(radix, k + 1) <= BASE && (cur * radix + c) % BASE == cur * radix + c
    ensures (v * Pow(radix, k) + cur) * radix + c == v * Pow(radix, k + 1) + (cur * radix + c)
    ensures Pow(radix, 0) == 1
  {
    PowMonotone(radix, k + 1, perLimb);
    PowStep(radix, k);
    hide *;
    MulLe(cur + 1, Pow(radix, k), radix);
    AppendAlgebra(v, Pow(radix, k), cur, radix, c);
    SmallMod(cur * radix + c, BASE);
  }

  lemma PowStep(radix: nat, k: nat)
    ensures Pow(radix, k + 1) == radix * Pow(radix, k) && Pow(radix, 0) == 1
  {
  }

  lemma AppendAlgebra(v: int, p: int, cur: int, radix: int, c: int)
    ensures (v * p + cur) * radix + c == v * (radix * p) + (cur * radix + c)
    ensures (cur + 1) * radix == cur * radix + radix && p * radix == radix * p
  {
    assert (v * p) * radix == v * (radix * p);
  }

  lemma {:induction false} PrintedAreDigits(v: nat, radix: nat, n: nat)
    requires 1 < radix <= 36
    ensures AllDigits(DigitsOf(v, radix, n), radix)
    decreases n
  {
    if n > 0 {
      assert Remainder(v, radix) < radix;
      DigitRoundTrip(Remainder(v, radix));
      hide Quotient;
      PrintedAreDigits(Quotient(v, radix), radix, n - 1);
    }
  }

  /** What `output_digits` prints, the accumulation of `js_atod` reads back. */
  lemma PrintRead(v: nat, radix: nat, n: nat)
    requires 1 < radix <= 36 && v < Pow(radix, n)
    ensures AllDigits(DigitsOf(v, radix, n), radix) && ReadDigits(DigitsOf(v, radix, n), radix) == v
  {
    PrintedAreDigits(v, radix, n);
    ReadBack(v, radix, n);
    SmallMod(v, Pow(radix, n));
  }

  // ----- u64toa -----

  /** A decimal numeral with no leading zero (0 itself is one digit). */
  ghost predicate Decimal(s: seq<int>, n: nat) {
    s != [] && AllDigits(s, 10) && ReadDigits(s, 10) == n && (|s| > 1 ==> s[0] != '0' as int)
  }

  lemma {:induction false} ReadConcat(a: seq<int>, b: seq<int>, radix: nat)
    ensures ReadDigits(a + b, radix) == ReadDigits(a, radix) * Pow(radix, |b|) + ReadDigits(b, radix)
    decreases |b|
  {
    if b == [] {
      assert a + b == a && Pow(radix, 0) == 1;
    } else {
      var c, x := b[..|b| - 1], ToDigit(b[|b| - 1]);
      assert (a + b)[..|a + b| - 1] == a + c;
      ReadConcat(a, c, radix);
      ConcatDigits(ReadDigits(a, radix), Pow(radix, |c|), ReadDigits(c, radix), radix, x);
    }
  }

  lemma ConcatDigits(v: int, p: int, w: int, radix: int, x: int)
    ensures (v * p + w) * radix + x == v * (radix * p) + (w * radix + x)
  {
    assert (v * p) * radix == v * (radix * p);
  }

  /** A numeral before fixed-width digits. */
  lemma DecimalAppend(s: seq<int>, n: nat, k: nat, low: nat)
    requires Decimal(s, n) && n > 0 && low < Pow(10, k)
    ensures Decimal(s + DigitsOf(low, 10, k), n * Pow(10, k) + low)
  {
    PrintRead(low, 10, k);
    ReadConcat(s, DigitsOf(low, 10, k), 10);
    var t := s + DigitsOf(low, 10, k);
    assert t[0] == s[0];
    if |s| == 1 {
      assert s[..0] == [];
      assert ToDigit(s[0]) == n;
    }
  }

  /** `u32toa`: digits are produced from the end of a local buffer and copied out. */
  method U32toa(buf: array<int>, off: nat, n0: nat) returns (len: nat)
    requires n0 < 0x1_0000_0000 && off + 10 <= buf.Length
    modifies buf
    ensures 1 <= len <= 10 && Decimal(buf[off..off + len], n0)
    ensures forall j :: 0 <= j < off || off + 10 <= j < buf.Length ==> buf[j] == old(buf[j])
  {
    hide *;
    FirstDigit(n0);
    var buf1 := new int[10];
    var q: nat, n: nat := 10, n0;
    ghost var done: seq<int> := [];
    while true
      modifies buf1
      invariant 1 <= q <= 10 && done == buf1[q..10] && Printing(done, n, n0) && (n > 0 || done == [])
      decreases q
    {
      var digit := DigitChar(n % 10);
      TurnDigits(n, done, n0);
      done := [digit] + done;
      q := q - 1;
      n := n / 10;
      buf1[q] := digit;
      assert buf1[q..10] == [buf1[q]] + buf1[q + 1..10];
      if n == 0 {
        break;
      }
    }
    len := 10 - q;
    CopyOut(buf, off, buf1, q, len);
    assert buf1[q..q + len] == done;
  }

  /** `done` are the lowest digits of `n0`, and `n` is what is left to print. */
  ghost predicate Printing(done: seq<int>, n: nat, n0: nat) {
    && |done| <= 10 && AllDigits(done, 10)
    && n * Pow(10, |done|) + ReadDigits(done, 10) == n0 && n < Pow(10, 10 - |done|)
  }

  /** `memcpy`. */
  method CopyOut(buf: array<int>, off: nat, src: array<int>, q: nat, len: nat)
    requires buf != src && off + len <= buf.Length && q + len <= src.Length
    modifies buf
    ensures buf[off..off + len] == src[q..q + len]
    ensures forall j :: 0 <= j < off || off + len <= j < buf.Length ==> buf[j] == old(buf[j])
  {
    for i := 0 to len
      invariant buf[off..off + i] == src[q..q + i]
      invariant forall j :: 0 <= j < off || off + len <= j < buf.Length ==> buf[j] == old(buf[j])
    {
      buf[off + i] := src[q + i];
    }
  }

  lemma FirstDigit(n: nat)
    requires n < 0x1_0000_0000
    ensures Printing([], n, n)
  {
    assert Pow(10, 3) == 1000;
    PowAdd(10, 3, 3);
    PowAdd(10, 6, 4);
    assert Pow(10, 4) == 10 * Pow(10, 3) && Pow(10, 0) == 1;
  }

  /** One digit produced; the loop ends with a numeral, at the latest after ten digits. */
  lemma TurnDigits(n: nat, done: seq<int>, n0: nat)
    requires Printing(done, n, n0) && |done| < 10 && (n > 0 || done == [])
    ensures Printing([DigitChar(n % 10)] + done, n / 10, n0)
    ensures n / 10 == 0 ==> Decimal([DigitChar(n % 10)] + done, n0)
    ensures |done| == 9 ==> n / 10 == 0
  {
    var d, r := n / 10, n % 10;
    OneDigit(r);
    TurnDigit(r, done);
    PowTen(9 - |done|);
    assert Pow(10, 0) == 1;
    hide Pow, ReadDigits;
    TurnAlgebra(d, r, Pow(10, |done|), ReadDigits(done, 10), n0);
  }

  lemma TurnDigit(r: nat, done: seq<int>)
    requires r < 10 && AllDigits(done, 10)
    ensures var c := [r + '0' as int];
            AllDigits(c + done, 10) && ReadDigits(c + done, 10) == r * Pow(10, |done|) + ReadDigits(done, 10)
    ensures Pow(10, |done| + 1) == 10 * Pow(10, |done|)
  {
    var c := [r + '0' as int];
    OneDigit(r);
    ReadConcat(c, done, 10);
    PowTen(|done|);
    hide Pow, ReadDigits;
  }

  lemma PowTen(n: nat)
    ensures Pow(10, n + 1) == 10 * Pow(10, n)
  {
  }

  lemma OneDigit(r: nat)
    requires r < 10
    ensures ReadDigits([r + '0' as int], 10) == r && ToDigit(r + '0' as int) == r
  {
    assert [r + '0' as int][..0] == [];
  }

  lemma TurnAlgebra(d: int, r: int, p: int, w: int, n0: int)
    requires (10 * d + r) * p + w == n0
    ensures d * (10 * p) + (r * p + w) == n0
  {
    assert (10 * d + r) * p == d * (10 * p) + r * p;
  }

  /** `u64toa`: at most three groups of nine decimal digits. */
  method U64toa(buf: array<int>, n: nat) returns (len: nat)
    requires n < U64 && buf.Length >= 20
    modifies buf
    ensures len <= buf.Length && Decimal(buf[..len], n)
  {
    hide *;
    Billion();
    if n < 0x1_0000_0000 {
      len := U32toa(buf, 0, n);
      assert buf[0..0 + len] == buf[..len];
      return;
    }
    var q: nat := 0;
    var n1 := n / 1000000000;
    var low := n % 1000000000;
    if n1 >= 0x1_0000_0000 {
      var n2 := n1 / 1000000000;
      q := TwoDigits(buf, n2);
      q := Nine(buf, q, n2, n1 % 1000000000);
    } else {
      q := U32toa(buf, 0, n1);
      assert buf[0..0 + q] == buf[..q];
    }
    len := Nine(buf, q, n1, low);
  }

  /** Nine digits behind a numeral. */
  method Nine(buf: array<int>, q: nat, ghost high: nat, low: nat) returns (len: nat)
    requires q + 9 <= buf.Length && Decimal(buf[..q], high) && high > 0 && low < 1000000000
    modifies buf
    ensures len == q + 9 && Decimal(buf[..len], high * 1000000000 + low)
  {
    hide *;
    Billion();
    ghost var s := buf[..q];
    LimbToA(buf, q, low, 10, 9);
    assert buf[..q] == s;
    assert buf[..q + 9] == buf[..q] + buf[q..q + 9];
    DecimalAppend(s, high, 9, low);
    len := q + 9;
  }

  lemma Billion()
    ensures Pow(10, 9) == 1000000000 && U64 == 0x1_0000_0000_0000_0000
  {
    assert Pow(10, 3) == 1000;
    PowAdd(10, 3, 3);
    PowAdd(10, 6, 3);
  }

  /** The first group of a number of 19 or 20 digits: one or two digits. */
  method TwoDigits(buf: array<int>, n: nat) returns (q: nat)
    requires 0 < n < 100 && buf.Length >= 2
    modifies buf
    ensures 1 <= q <= 2 && Decimal(buf[..q], n)
  {
    q := 0;
    var n2 := n;
    if n2 >= 10 {
      buf[q] := n2 / 10 + '0' as int;
      q := q + 1;
      n2 := n2 % 10;
    }
    buf[q] := n2 + '0' as int;
    q := q + 1;
    OneDigit(n2);
    if q == 1 {
      assert buf[..q] == [n2 + '0' as int];
    } else {
      OneDigit(n / 10);
      assert buf[..q] == [n / 10 + '0' as int] + [n2 + '0' as int];
      ReadConcat([n / 10 + '0' as int], [n2 + '0' as int], 10);
      PowTen(0);
    }
  }
}
