/** The UTF-8 and UTF-16 codecs of cutils.h: section 3 of RFC 3629, with surrogates allowed. */
module Utf8 {
  import opened Bytes
  import opened MatchInput

  type codepoint = c: int | 0 <= c < 0x110000

  const REPLACEMENT: codepoint := 0xFFFD

  // ----- utf8_encode and utf8_decode -----

  /** The bytes of a code point. */
  function Encode(c: codepoint): (s: seq<byte>)
    ensures |s| == EncodeLen(c)
  {
    if c < 0x80 then [c]
    else if c < 0x800 then [0xC0 + c / 64, 0x80 + c % 64]
    else if c < 0x10000 then [0xE0 + c / 4096, 0x80 + c / 64 % 64, 0x80 + c % 64]
    else [0xF0 + c / 262144, 0x80 + c / 4096 % 64, 0x80 + c / 64 % 64, 0x80 + c % 64]
  }

  /** `utf8_encode_len`. */
  function EncodeLen(c: codepoint): (n: nat)
    ensures 1 <= n <= 4
  {
    if c < 0x80 then 1 else if c < 0x800 then 2 else if c < 0x10000 then 3 else 4
  }

  predicate Trail(b: byte) {
    0x80 <= b <= 0xBF
  }

  /** How many bytes have to be there when the sequence begins with `b`. */
  function Need(b: byte): nat {
    if b < 0x80 then 1 else if b < 0xE0 then 2 else if b < 0xF0 then 3 else 4
  }

  /** The six bits of a trail byte. */
  function Six(b: byte): int {
    b - 0x80
  }

  /** `utf8_decode`: the code point and the bytes it takes, or U+FFFD and 1. */
  function DecodeOne(s: seq<byte>): (r: (codepoint, nat))
    requires s != [] && |s| >= Need(s[0])
    ensures 1 <= r.1 <= Need(s[0])
  {
    var b: int := s[0];
    if b < 0x80 then (b, 1)
    else if 0xC2 <= b <= 0xDF && Trail(s[1]) then
      ((b - 0xC0) * 64 + Six(s[1]), 2)
    else if 0xE0 <= b <= 0xEF && (if b == 0xE0 then 0xA0 else 0x80) <= s[1] <= 0xBF && Trail(s[2]) then
      ((b - 0xE0) * 4096 + Six(s[1]) * 64 + Six(s[2]), 3)
    else if 0xF0 <= b <= 0xF4 && (if b == 0xF0 then 0x90 else 0x80) <= s[1] <= (if b == 0xF4 then 0x8F else 0xBF)
            && Trail(s[2]) && Trail(s[3]) then
      ((b - 0xF0) * 262144 + Six(s[1]) * 4096 + Six(s[2]) * 64 + Six(s[3]), 4)
    else (REPLACEMENT, 1)
  }

  /** `utf8_decode_len` on what is left of the input: a sequence that is cut off is an error. */
  function Decode(s: seq<byte>): (r: (codepoint, nat))
    requires s != []
    ensures 1 <= r.1 <= |s|
  {
    if |s| >= Need(s[0]) then DecodeOne(s) else (REPLACEMENT, 1)
  }

  /** A lead byte of 0x80 or more of which only itself is taken. */
  predicate Bad(s: seq<byte>)
    requires s != []
  {
    s[0] >= 0x80 && Decode(s).1 == 1
  }

  lemma SixBits(c: nat)
    ensures c == c / 64 * 64 + c % 64 && c / 64 == c / 4096 * 64 + c / 64 % 64
    ensures c / 4096 == c / 262144 * 64 + c / 4096 % 64
  {
  }

  /** What is encoded is decoded, whatever follows. */
  lemma DecodeEncoded(c: codepoint, rest: seq<byte>)
    ensures Decode(Encode(c) + rest) == (c, EncodeLen(c)) && !Bad(Encode(c) + rest)
  {
    SixBits(c);
    var s, e := Encode(c) + rest, Encode(c);
    forall k | 0 <= k < |e| ensures s[k] == e[k] {
    }
    DecodeFour(s, e, c);
  }

  lemma DecodeFour(s: seq<byte>, e: seq<byte>, c: codepoint)
    requires e == Encode(c) && |e| <= |s| && forall k :: 0 <= k < |e| ==> s[k] == e[k]
    requires c == c / 64 * 64 + c % 64 && c / 64 == c / 4096 * 64 + c / 64 % 64
    requires c / 4096 == c / 262144 * 64 + c / 4096 % 64
    ensures Decode(s) == (c, |e|) && !Bad(s)
  {
    assert s[0] == e[0];
    if |e| == 2 {
      assert s[1] == e[1];
    } else if |e| == 3 {
      assert s[1] == e[1] && s[2] == e[2];
    } else if |e| == 4 {
      assert s[1] == e[1] && s[2] == e[2] && s[3] == e[3];
    }
  }

  lemma Joined(x: nat, y: nat)
    requires y < 64
    ensures (x * 64 + y) / 64 == x && (x * 64 + y) % 64 == y
  {
  }

  lemma EncodeTwo(b0: byte, b1: byte)
    requires 0xC2 <= b0 <= 0xDF && Trail(b1)
    ensures Encode((b0 - 0xC0) * 64 + Six(b1)) == [b0, b1]
  {
    Joined(b0 - 0xC0, Six(b1));
  }

  lemma EncodeThree(b0: byte, b1: byte, b2: byte)
    requires 0xE0 <= b0 <= 0xEF && Trail(b1) && Trail(b2) && (b0 == 0xE0 ==> b1 >= 0xA0)
    ensures Encode((b0 - 0xE0) * 4096 + Six(b1) * 64 + Six(b2)) == [b0, b1, b2]
  {
    var h: int := b0 - 0xE0;
    var m := h * 64 + Six(b1);
    Joined(h, Six(b1));
    Joined(m, Six(b2));
    SixBits(m * 64 + Six(b2));
  }

  lemma EncodeFour(b0: byte, b1: byte, b2: byte, b3: byte)
    requires 0xF0 <= b0 <= 0xF4 && Trail(b1) && Trail(b2) && Trail(b3)
    requires (b0 == 0xF0 ==> b1 >= 0x90) && (b0 == 0xF4 ==> b1 <= 0x8F)
    ensures Encode((b0 - 0xF0) * 262144 + Six(b1) * 4096 + Six(b2) * 64 + Six(b3)) == [b0, b1, b2, b3]
  {
    var h: int := b0 - 0xF0;
    var m := h * 64 + Six(b1);
    var n := m * 64 + Six(b2);
    Joined(h, Six(b1));
    Joined(m, Six(b2));
    Joined(n, Six(b3));
    SixBits(n * 64 + Six(b3));
    assert (n * 64 + Six(b3)) / 64 == n && n / 64 == m && m / 64 == h;
  }

  /** What is decoded without an error is the one encoding of the code point. */
  lemma EncodeDecoded(s: seq<byte>)
    requires s != [] && !Bad(s)
    ensures Encode(Decode(s).0) == s[..Decode(s).1]
  {
    hide Encode;
    var b: int := s[0];
    if b < 0x80 {
      EncodeOne(s[0]);
      assert s[..1] == [s[0]];
    } else if b <= 0xDF {
      EncodeTwo(s[0], s[1]);
      assert s[..2] == [s[0], s[1]];
    } else if b <= 0xEF {
      EncodeThree(s[0], s[1], s[2]);
      assert s[..3] == [s[0], s[1], s[2]];
    } else {
      EncodeFour(s[0], s[1], s[2], s[3]);
      assert s[..4] == [s[0], s[1], s[2], s[3]];
    }
  }

  lemma EncodeOne(b: byte)
    requires b < 0x80
    ensures Encode(b) == [b]
  {
  }

  // ----- Texts -----

  /** The first character of a UTF-16 text and its units; a lone surrogate is a character. */
  function First(u: seq<unit>): (r: (codepoint, nat))
    requires u != []
    ensures 1 <= r.1 <= |u| && r.1 <= 2
  {
    if IsHi(u[0]) && |u| > 1 && IsLo(u[1]) then (FromSurrogate(u[0], u[1]), 2) else (u[0], 1)
  }

  /** A UTF-16 text in UTF-8. */
  function EncodeUnits(u: seq<unit>): seq<byte> {
    if u == [] then [] else Encode(First(u).0) + EncodeUnits(u[First(u).1..])
  }

  /** One or two units for a code point. */
  function UnitsOf(c: codepoint): (u: seq<unit>)
    ensures 1 <= |u| <= 2
  {
    if c > 0xFFFF then [c / 0x400 - 0x40 + 0xD800, c % 0x400 + 0xDC00] else [c]
  }

  function Skip(s: seq<byte>): (rest: seq<byte>)
    requires s != []
    ensures |rest| < |s|
  {
    s[Decode(s).1..]
  }

  /** The UTF-16 text of a byte string; every byte that fits in no sequence is a U+FFFD. */
  function DecodeUnits(s: seq<byte>): seq<unit>
    decreases |s|
  {
    if s == [] then [] else UnitsOf(Decode(s).0) + DecodeUnits(Skip(s))
  }

  lemma SurrogateUnits(hi: unit, lo: unit)
    requires IsHi(hi) && IsLo(lo)
    ensures 0x10000 <= FromSurrogate(hi, lo) < 0x110000 && UnitsOf(FromSurrogate(hi, lo)) == [hi, lo]
  {
  }

  lemma FirstUnits(u: seq<unit>)
    requires u != []
    ensures UnitsOf(First(u).0) == u[..First(u).1]
  {
    if First(u).1 == 2 {
      SurrogateUnits(u[0], u[1]);
    }
  }

  /** Any text, lone surrogates included, survives encoding and decoding. */
  lemma {:induction false} UnitsRoundTrip(u: seq<unit>)
    ensures DecodeUnits(EncodeUnits(u)) == u
  {
    if u != [] {
      var c, k := First(u).0, First(u).1;
      var rest := EncodeUnits(u[k..]);
      DecodeEncoded(c, rest);
      FirstUnits(u);
      UnitsRoundTrip(u[k..]);
      assert Skip(Encode(c) + rest) == rest;
      assert u[..k] + u[k..] == u;
    }
  }

  // ----- Errors -----

  /** The code points of a byte string. */
  function DecodePoints(s: seq<byte>): seq<codepoint>
    decreases |s|
  {
    if s == [] then [] else [Decode(s).0] + DecodePoints(Skip(s))
  }

  function EncodePoints(cs: seq<codepoint>): seq<byte> {
    if cs == [] then [] else Encode(cs[0]) + EncodePoints(cs[1..])
  }

  predicate HasErrors(s: seq<byte>)
    decreases |s|
  {
    s != [] && (Bad(s) || HasErrors(Skip(s)))
  }

  lemma PointsStep(s: seq<byte>)
    requires s != []
    ensures EncodePoints(DecodePoints(s)) == Encode(Decode(s).0) + EncodePoints(DecodePoints(Skip(s)))
  {
    assert DecodePoints(s)[1..] == DecodePoints(Skip(s));
  }

  /** Encoding again never gives fewer bytes, and more when there was an error. */
  lemma {:induction false} ReencodedLength(s: seq<byte>)
    ensures |EncodePoints(DecodePoints(s))| >= |s|
    ensures HasErrors(s) ==> |EncodePoints(DecodePoints(s))| > |s|
    decreases |s|
  {
    if s != [] {
      PointsStep(s);
      ReencodedLength(Skip(s));
      if !Bad(s) {
        EncodeDecoded(s);
      } else {
        hide DecodePoints, EncodePoints;
        BadPoint(s);
      }
    }
  }

  lemma BadPoint(s: seq<byte>)
    requires s != [] && Bad(s)
    ensures Decode(s).1 == 1 && EncodeLen(Decode(s).0) == 3
  {
  }

  lemma NoErrorStep(s: seq<byte>)
    requires s != [] && !HasErrors(s)
    ensures !Bad(s) && !HasErrors(Skip(s)) && s == s[..Decode(s).1] + Skip(s)
  {
    hide Decode;
  }

  lemma NoPoints()
    ensures EncodePoints(DecodePoints([])) == []
  {
  }

  lemma {:induction false} ReencodedSame(s: seq<byte>)
    requires !HasErrors(s)
    ensures EncodePoints(DecodePoints(s)) == s
    decreases |s|
  {
    hide *;
    if s != [] {
      PointsStep(s);
      NoErrorStep(s);
      EncodeDecoded(s);
      ReencodedSame(Skip(s));
    } else {
      NoPoints();
    }
  }

  lemma {:induction false} EncodedHasNoErrors(cs: seq<codepoint>)
    ensures !HasErrors(EncodePoints(cs)) && DecodePoints(EncodePoints(cs)) == cs
  {
    if cs != [] {
      var rest := EncodePoints(cs[1..]);
      DecodeEncoded(cs[0], rest);
      EncodedHasNoErrors(cs[1..]);
      assert Skip(Encode(cs[0]) + rest) == rest;
    }
  }

  /** An error is reported exactly when the bytes are not the encoding of any list of code points, and exactly when
      encoding what was decoded does not give the bytes back. */
  lemma ErrorsMeaning(s: seq<byte>)
    ensures HasErrors(s) <==> EncodePoints(DecodePoints(s)) != s
    ensures HasErrors(s) <==> forall cs :: EncodePoints(cs) != s
  {
    if HasErrors(s) {
      ReencodedLength(s);
      forall cs ensures EncodePoints(cs) != s {
        EncodedHasNoErrors(cs);
      }
    } else {
      ReencodedSame(s);
    }
  }

  // ----- Laws -----

  /** `n` bytes: the bits of the lead byte that say so, its other bits, and six bits in each trail byte. */
  predicate Bits(s: seq<byte>, mark: nat, low: nat, value: nat)
    requires s != [] && low > 0
  {
    && s[0] as int / low == mark && (forall k :: 1 <= k < |s| ==> s[k] as int / 64 == 2)
    && Payload(s, low) == value
  }

  function Payload(s: seq<byte>, low: nat): nat
    requires s != [] && low > 0
  {
    if |s| == 1 then s[0] as int % low else Payload(s[..|s| - 1], low) * 64 + s[|s| - 1] as int % 64
  }

  /** The bits of the bytes, as the table of section 3 of RFC 3629 gives them. */
  lemma EncodeLaw(c: codepoint)
    ensures var s := Encode(c);
      if c < 0x80 then |s| == 1 && Bits(s, 0, 128, c)
      else if c < 0x800 then |s| == 2 && Bits(s, 6, 32, c)
      else if c < 0x1_0000 then |s| == 3 && Bits(s, 14, 16, c)
      else |s| == 4 && Bits(s, 30, 8, c)
  {
    var s := Encode(c);
    SixBits(c);
    if c < 0x80 {
    } else if c < 0x800 {
      LeadLaw(c / 64, 32, 6);
      TrailLaw(c % 64);
      PayloadOf(s, 32);
    } else if c < 0x1_0000 {
      LeadLaw(c / 4096, 16, 14);
      TrailLaw(c / 64 % 64);
      TrailLaw(c % 64);
      PayloadOf(s, 16);
    } else {
      LeadLaw(c / 262144, 8, 30);
      TrailLaw(c / 4096 % 64);
      TrailLaw(c / 64 % 64);
      TrailLaw(c % 64);
      PayloadOf(s, 8);
    }
  }

  lemma PayloadOf(s: seq<byte>, low: nat)
    requires 2 <= |s| <= 4 && low > 0
    ensures var two := s[0] as int % low * 64 + s[1] as int % 64;
      && (|s| == 2 ==> Payload(s, low) == two)
      && (|s| == 3 ==> Payload(s, low) == two * 64 + s[2] as int % 64)
      && (|s| == 4 ==> Payload(s, low) == (two * 64 + s[2] as int % 64) * 64 + s[3] as int % 64)
  {
    var t := s[..2];
    assert t[..1] == [s[0]];
    assert Payload(t, low) == s[0] as int % low * 64 + s[1] as int % 64;
    if |s| == 2 {
      assert s == t;
    } else if |s| == 3 {
      assert s[..|s| - 1] == t;
    } else {
      var u := s[..3];
      assert u[..2] == t && s[..|s| - 1] == u;
      assert Payload(u, low) == Payload(t, low) * 64 + s[2] as int % 64;
    }
  }

  lemma LeadLaw(x: nat, low: nat, mark: nat)
    requires low in {8, 16, 32} && x < low
    ensures (mark * low + x) / low == mark && (mark * low + x) % low == x
  {
  }

  lemma TrailLaw(x: nat)
    requires x < 64
    ensures (0x80 + x) / 64 == 2 && (0x80 + x) % 64 == x
  {
  }

  /** A byte of 0x80 or more that stands alone is read as the one unit of U+FFFD. */
  lemma LoneByte(b: byte)
    requires b >= 0x80
    ensures DecodeUnits([b]) == [0xFFFD] && HasErrors([b])
  {
    assert Skip([b]) == [];
    assert UnitsOf(REPLACEMENT) == [0xFFFD];
  }

  /** A code point above 0xFFFF is written as two units, twenty bits from 0x10000 on; others as themselves. */
  lemma UnitsLaw(c: codepoint)
    ensures c <= 0xFFFF ==> UnitsOf(c) == [c]
    ensures c > 0xFFFF ==> |UnitsOf(c)| == 2 && 0xD800 <= UnitsOf(c)[0] <= 0xDBFF && 0xDC00 <= UnitsOf(c)[1] <= 0xDFFF
    ensures c > 0xFFFF
            ==> 0x1_0000 + (UnitsOf(c)[0] as int - 0xD800) * 0x400 + (UnitsOf(c)[1] as int - 0xDC00) == c
  {
  }
}
