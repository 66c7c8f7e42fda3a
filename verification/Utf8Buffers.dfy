/** `utf8_scan`, `utf8_decode_buf16` and `utf8_encode_buf16` (cutils.h) on buffers of limited size. */
module Utf8Buffers {
  import opened Bytes
  import opened MatchInput
  import opened Utf8

  // ----- utf8_scan -----

  /** The mask of bits `utf8_scan` returns. */
  datatype Kind = Kind(nonAscii: bool, has16Bit: bool, hasNonBmp: bool, hasErrors: bool)

  predicate AnyHigh(s: seq<byte>) {
    exists k :: 0 <= k < |s| && s[k] >= 0x80
  }

  predicate AnyAbove(cs: seq<codepoint>, limit: nat) {
    exists k :: 0 <= k < |cs| && cs[k] > limit
  }

  lemma AnyAboveStep(c: codepoint, cs: seq<codepoint>, limit: nat)
    ensures AnyAbove([c] + cs, limit) == (c > limit || AnyAbove(cs, limit))
  {
    if AnyAbove(cs, limit) {
      var k :| 0 <= k < |cs| && cs[k] > limit;
      assert ([c] + cs)[k + 1] > limit;
    }
    assert ([c] + cs)[0] == c;
  }

  lemma {:induction false} PlainText(s: seq<byte>)
    requires !AnyHigh(s)
    ensures |DecodeUnits(s)| == |s| && !HasErrors(s)
    ensures !AnyAbove(DecodePoints(s), 0xFF) && !AnyAbove(DecodePoints(s), 0xFFFF)
    decreases |s|
  {
    if s != [] {
      assert s[0] < 0x80;
      PlainText(Skip(s));
      AnyAboveStep(Decode(s).0, DecodePoints(Skip(s)), 0xFF);
      AnyAboveStep(Decode(s).0, DecodePoints(Skip(s)), 0xFFFF);
    }
  }

  /** What the scan has found of the bytes before `rest`. */
  ghost predicate Scanned(s: seq<byte>, rest: seq<byte>, len: nat, kind: Kind) {
    && |DecodeUnits(s)| == len + |DecodeUnits(rest)|
    && AnyAbove(DecodePoints(s), 0xFF) == (kind.has16Bit || AnyAbove(DecodePoints(rest), 0xFF))
    && AnyAbove(DecodePoints(s), 0xFFFF) == (kind.hasNonBmp || AnyAbove(DecodePoints(rest), 0xFFFF))
    && HasErrors(s) == (kind.hasErrors || HasErrors(rest))
  }

  lemma ScanStep(s: seq<byte>, rest: seq<byte>, len: nat, kind: Kind)
    requires Scanned(s, rest, len, kind) && rest != []
    ensures var c := Decode(rest).0;
            Scanned(s, Skip(rest), len + (if c > 0xFFFF then 2 else 1),
                    Kind(kind.nonAscii, kind.has16Bit || c > 0xFF, kind.hasNonBmp || c > 0xFFFF,
                         kind.hasErrors || Bad(rest)))
  {
    hide Decode;
    AnyAboveStep(Decode(rest).0, DecodePoints(Skip(rest)), 0xFF);
    AnyAboveStep(Decode(rest).0, DecodePoints(Skip(rest)), 0xFFFF);
    assert |UnitsOf(Decode(rest).0)| == if Decode(rest).0 > 0xFFFF then 2 else 1;
  }

  lemma ScanStart(s: seq<byte>, kind: Kind)
    requires !kind.has16Bit && !kind.hasNonBmp && !kind.hasErrors
    ensures Scanned(s, s, 0, kind)
  {
  }

  lemma ScanEnd(s: seq<byte>, len: nat, kind: Kind)
    requires Scanned(s, [], len, kind)
    ensures len == |DecodeUnits(s)| && kind.hasErrors == HasErrors(s)
    ensures kind.has16Bit == AnyAbove(DecodePoints(s), 0xFF) && kind.hasNonBmp == AnyAbove(DecodePoints(s), 0xFFFF)
  {
  }

  lemma AsciiStep(s: seq<byte>)
    requires s != [] && s[0] < 0x80
    ensures Decode(s) == (s[0], 1) && !Bad(s) && Skip(s) == s[1..]
  {
  }

  lemma BadIs(s: seq<byte>)
    requires s != [] && s[0] >= 0x80
    ensures Bad(s) == (Decode(s).1 == 1) && Skip(s) == s[Decode(s).1..]
  {
  }

  lemma HighIs(s: seq<byte>)
    ensures AnyHigh(s) <==> exists k :: 0 <= k < |s| && s[k] >= 0x80
  {
  }

  /** `utf8_scan`: the number of units `utf8_decode_buf16` will produce, and what they are like. */
  method Scan(s: seq<byte>) returns (kind: Kind, len: nat)
    ensures len == |DecodeUnits(s)|
    ensures kind == Kind(AnyHigh(s), AnyAbove(DecodePoints(s), 0xFF), AnyAbove(DecodePoints(s), 0xFFFF), HasErrors(s))
  {
    hide *;
    kind := Kind(false, false, false, false);
    var high := false;
    len := |s|;
    for i := 0 to |s|
      invariant high == exists k :: 0 <= k < i && s[k] >= 0x80
    {
      high := high || s[i] >= 0x80;
    }
    HighIs(s);
    if high {
      var p := 0;
      kind := kind.(nonAscii := true);
      len := 0;
      ScanStart(s, kind);
      assert s[0..] == s;
      while p < |s|
        invariant p <= |s| && kind.nonAscii && Scanned(s, s[p..], len, kind)
        decreases |s| - p
      {
        ghost var rest := s[p..];
        ScanStep(s, rest, len, kind);
        len := len + 1;
        p := p + 1;
        if s[p - 1] >= 0x80 {
          BadIs(rest);
          var r := Decode(s[p - 1..]);
          if r.1 == 1 {
            kind := kind.(hasErrors := true);
          }
          assert rest[r.1..] == s[p - 1 + r.1..];
          p := p - 1 + r.1;
          if r.0 > 0xFF {
            kind := kind.(has16Bit := true);
            if r.0 > 0xFFFF {
              len := len + 1;
              kind := kind.(hasNonBmp := true);
            }
          }
        } else {
          AsciiStep(rest);
          assert rest[1..] == s[p..];
        }
      }
      assert s[p..] == [];
      ScanEnd(s, len, kind);
    } else {
      PlainText(s);
    }
  }

  // ----- utf8_decode_buf16 -----

  /** As much of `u` as there is room for stands at the start of `t`; the rest of `t` is as in `t0`. */
  ghost predicate Stored<T>(u: seq<T>, t0: seq<T>, t: seq<T>) {
    |t| == |t0| && forall k :: 0 <= k < |t| ==> t[k] == if k < |u| then u[k] else t0[k]
  }

  lemma NothingStored<T>(t0: seq<T>)
    ensures Stored([], t0, t0)
  {
  }

  /** Stores `x` after `u` if there is room. */
  method Store<T>(dest: array<T>, i: nat, x: T, ghost u: seq<T>, ghost t0: seq<T>)
    requires Stored(u, t0, dest[..]) && i == |u|
    modifies dest
    ensures Stored(u + [x], t0, dest[..])
  {
    if i < dest.Length {
      dest[i] := x;
    }
  }

  lemma DecodeStep(s: seq<byte>)
    requires s != []
    ensures DecodeUnits(s) == UnitsOf(Decode(s).0) + DecodeUnits(Skip(s))
  {
  }

  lemma TwoUnits(c: codepoint)
    requires c > 0xFFFF
    ensures UnitsOf(c) == [c / 0x400 - 0x40 + 0xD800, c % 0x400 + 0xDC00]
  {
  }

  lemma OneUnit(c: codepoint)
    requires c <= 0xFFFF
    ensures UnitsOf(c) == [c]
  {
  }

  /** `utf8_decode_buf16`: returns the full length and stores what fits. */
  method DecodeBuf16(dest: array<unit>, s: seq<byte>) returns (i: nat)
    modifies dest
    ensures i == |DecodeUnits(s)| && Stored(DecodeUnits(s), old(dest[..]), dest[..])
  {
    hide *;
    ghost var t0: seq<unit>, u: seq<unit> := dest[..], [];
    var p: nat := 0;
    i := 0;
    NothingStored(t0);
    assert s[0..] == s && u + DecodeUnits(s) == DecodeUnits(s);
    while p < |s|
      invariant p <= |s| && i == |u| && u + DecodeUnits(s[p..]) == DecodeUnits(s)
      invariant Stored(u, t0, dest[..])
      decreases |s| - p
    {
      ghost var rest := s[p..];
      DecodeStep(rest);
      assert u + DecodeUnits(rest) == u + UnitsOf(Decode(rest).0) + DecodeUnits(Skip(rest));
      var c: codepoint := s[p];
      p := p + 1;
      if c >= 0x80 {
        BadIs(rest);
        var r := Decode(s[p - 1..]);
        assert rest[r.1..] == s[p - 1 + r.1..];
        c := r.0;
        p := p - 1 + r.1;
      } else {
        AsciiStep(rest);
        assert rest[1..] == s[p..];
      }
      var v: unit := if c > 0xFFFF then c % 0x400 + 0xDC00 else c;
      if c > 0xFFFF {
        TwoUnits(c);
        var hi: unit := c / 0x400 - 0x40 + 0xD800;
        Store(dest, i, hi, u, t0);
        u := u + [hi];
        i := i + 1;
      } else {
        OneUnit(c);
      }
      Store(dest, i, v, u, t0);
      u := u + [v];
      i := i + 1;
    }
    NoUnits();
    assert s[p..] == [] && u + [] == u;
  }

  lemma NoUnits()
    ensures DecodeUnits([]) == []
  {
  }

  // ----- utf8_encode_buf16 -----

  /** The bytes of the leading characters of `u` that fit in a room of `room` bytes with a null byte after them. */
  function Fit(u: seq<unit>, room: nat): nat
    decreases |u|
  {
    if u == [] then 0
    else
      var n := EncodeLen(First(u).0);
      if n < room then n + Fit(u[First(u).1..], room - n) else 0
  }

  lemma {:induction false} FitBounds(u: seq<unit>, room: nat)
    ensures Fit(u, room) <= |EncodeUnits(u)| && (room > 0 ==> Fit(u, room) < room)
    ensures |EncodeUnits(u)| < room ==> Fit(u, room) == |EncodeUnits(u)|
    decreases |u|
  {
    if u != [] {
      var n := EncodeLen(First(u).0);
      FitBounds(u[First(u).1..], if n < room then room - n else 0);
    }
  }

  /** The text up to `i` is encoded in the first `j` bytes. */
  ghost predicate Encoding(u: seq<unit>, i: nat, j: nat, t0: seq<byte>, t: seq<byte>) {
    && i <= |u| && |t| == |t0| && j <= |t|
    && EncodeUnits(u) == t[..j] + EncodeUnits(u[i..])
    && Fit(u, |t|) == j + Fit(u[i..], |t| - j)
    && t[j..] == t0[j..]
  }

  /** The end: whole characters and a null byte, the rest of the buffer as it was. */
  ghost predicate Terminated(u: seq<unit>, t0: seq<byte>, t: seq<byte>) {
    && |t| == |t0|
    && (|t| > 0 ==>
          var m := Fit(u, |t|);
          m < |t| && m <= |EncodeUnits(u)| && t[..m] == EncodeUnits(u)[..m] && t[m] == 0 && t[m + 1..] == t0[m + 1..])
  }

  lemma EncodeStep(u: seq<unit>, room: nat)
    requires u != []
    ensures EncodeUnits(u) == Encode(First(u).0) + EncodeUnits(u[First(u).1..])
    ensures Fit(u, room) == var n := EncodeLen(First(u).0);
                            if n < room then n + Fit(u[First(u).1..], room - n) else 0
  {
  }

  lemma EncodingStart(u: seq<unit>, t0: seq<byte>)
    ensures Encoding(u, 0, 0, t0, t0)
  {
    assert u[0..] == u && [] + EncodeUnits(u) == EncodeUnits(u);
  }

  /** One more character fits. */
  lemma EncodingMore(u: seq<unit>, i: nat, j: nat, t0: seq<byte>, t: seq<byte>, t2: seq<byte>)
    requires Encoding(u, i, j, t0, t) && i < |u|
    requires j + EncodeLen(First(u[i..]).0) < |t| == |t2|
    requires t2[..j] == t[..j] && t2[j..j + EncodeLen(First(u[i..]).0)] == Encode(First(u[i..]).0)
    requires t2[j + EncodeLen(First(u[i..]).0)..] == t[j + EncodeLen(First(u[i..]).0)..]
    ensures i + First(u[i..]).1 <= |u|
    ensures Encoding(u, i + First(u[i..]).1, j + EncodeLen(First(u[i..]).0), t0, t2)
  {
    hide Encode, EncodeUnits, Fit, First;
    var c, k := First(u[i..]).0, First(u[i..]).1;
    var n := EncodeLen(c);
    EncodeStep(u[i..], |t| - j);
    assert u[i..][k..] == u[i + k..];
    assert t2[..j + n] == t2[..j] + t2[j..j + n];
    assert t2[j + n..] == t[j..][n..] == t0[j..][n..] == t0[j + n..];
  }

  /** Nothing more fits, or nothing more is there: a null byte ends the text. */
  lemma EncodingStop(u: seq<unit>, i: nat, j: nat, t0: seq<byte>, t: seq<byte>, t2: seq<byte>)
    requires Encoding(u, i, j, t0, t)
    requires i == |u| || j + EncodeLen(First(u[i..]).0) >= |t|
    requires (j < |t| || t == []) && t2 == if j < |t| then t[j := 0] else t
    ensures Terminated(u, t0, t2)
  {
    hide Encode, First;
    FitBounds(u, |t|);
    if i == |u| {
      assert u[i..] == [];
    }
    if j < |t| {
      assert Fit(u[i..], |t| - j) == 0;
      assert EncodeUnits(u)[..j] == t[..j] == t2[..j];
      assert t2[j + 1..] == t[j..][1..] == t0[j..][1..] == t0[j + 1..];
    }
  }

  /** `utf8_encode` at position `j` of a buffer. */
  method EncodeAt(dest: array<byte>, j: nat, c: codepoint) returns (n: nat)
    requires j + EncodeLen(c) <= dest.Length
    modifies dest
    ensures n == EncodeLen(c) && dest[j..j + n] == Encode(c)
    ensures dest[..j] == old(dest[..j]) && dest[j + n..] == old(dest[j + n..])
  {
    if c < 0x80 {
      dest[j] := c;
      return 1;
    }
    if c < 0x800 {
      dest[j], dest[j + 1] := c / 64 + 0xC0, c % 64 + 0x80;
      return 2;
    }
    if c < 0x10000 {
      dest[j], dest[j + 1], dest[j + 2] := c / 4096 + 0xE0, c / 64 % 64 + 0x80, c % 64 + 0x80;
      return 3;
    }
    dest[j], dest[j + 1] := c / 262144 + 0xF0, c / 4096 % 64 + 0x80;
    dest[j + 2], dest[j + 3] := c / 64 % 64 + 0x80, c % 64 + 0x80;
    return 4;
  }

  lemma FirstAt(u: seq<unit>, i: nat)
    requires i < |u|
    ensures First(u[i..]) == if IsHi(u[i]) && i + 1 < |u| && IsLo(u[i + 1]) then (FromSurrogate(u[i], u[i + 1]), 2)
                             else (u[i], 1)
    ensures IsHi(u[i]) && i + 1 < |u| && IsLo(u[i + 1]) ==> First(u[i..]).0 > 0xFFFF
  {
  }

  /** The code point that begins at `i`, with the test for a surrogate pair. */
  method NextChar(src: seq<unit>, i: nat) returns (c: codepoint, k: nat)
    requires i < |src|
    ensures (c, k) == First(src[i..]) && i < k + i <= |src| && k == if c > 0xFFFF then 2 else 1
  {
    FirstAt(src, i);
    c, k := src[i], 1;
    if IsHi(src[i]) && i + 1 < |src| && IsLo(src[i + 1]) {
      c, k := FromSurrogate(src[i], src[i + 1]), 2;
    }
  }

  /** The length of the whole text is still to be counted from `i` on. */
  ghost predicate Counting(u: seq<unit>, i: nat, j: nat) {
    i <= |u| && j + |EncodeUnits(u[i..])| == |EncodeUnits(u)|
  }

  lemma CountFrom(u: seq<unit>, i: nat, j: nat, t0: seq<byte>, t: seq<byte>)
    requires Encoding(u, i, j, t0, t)
    ensures Counting(u, i, j)
  {
  }

  lemma CountStep(u: seq<unit>, i: nat, j: nat)
    requires Counting(u, i, j) && i < |u|
    ensures i + First(u[i..]).1 <= |u| && Counting(u, i + First(u[i..]).1, j + EncodeLen(First(u[i..]).0))
  {
    assert u[i..][First(u[i..]).1..] == u[i + First(u[i..]).1..];
  }

  lemma CountEnd(u: seq<unit>, j: nat)
    requires Counting(u, |u|, j)
    ensures j == |EncodeUnits(u)|
  {
  }

  /** Ends the text with a null byte if there is room. */
  method Terminate(dest: array<byte>, j: nat)
    modifies dest
    ensures dest[..] == if j < dest.Length then old(dest[..])[j := 0] else old(dest[..])
  {
    if j < dest.Length {
      dest[j] := 0;
    }
  }

  /** `utf8_encode_buf16`: stores the whole characters that fit and a null byte, and returns the length of the full
      encoding even when it does not fit. */
  method EncodeBuf16(dest: array<byte>, src: seq<unit>) returns (j: nat)
    modifies dest
    ensures j == |EncodeUnits(src)| && Terminated(src, old(dest[..]), dest[..])
  {
    hide *;
    ghost var t0 := dest[..];
    var i: nat := 0;
    j := 0;
    var overflow := false;
    EncodingStart(src, t0);
    while i < |src| && !overflow
      invariant i <= |src| && Encoding(src, i, j, t0, dest[..]) && (j < dest.Length || dest.Length == j == 0)
      invariant overflow ==> i < |src| && j + EncodeLen(First(src[i..]).0) >= dest.Length
      decreases |src| - i, !overflow
    {
      ghost var t := dest[..];
      var c, k := NextChar(src, i);
      if j + EncodeLen(c) >= dest.Length {
        overflow := true;
      } else {
        var n := EncodeAt(dest, j, c);
        ghost var t2 := dest[..];
        assert t2[..j] == dest[..j] && t2[j..j + n] == dest[j..j + n] && t2[j + n..] == dest[j + n..];
        EncodingMore(src, i, j, t0, t, t2);
        j := j + n;
        i := i + k;
      }
    }
    CountFrom(src, i, j, t0, dest[..]);
    ghost var t := dest[..];
    Terminate(dest, j);
    EncodingStop(src, i, j, t0, t, dest[..]);
    while i < |src|
      invariant i <= |src| && Counting(src, i, j) && Terminated(src, t0, dest[..])
      decreases |src| - i
    {
      CountStep(src, i, j);
      var c, k := NextChar(src, i);
      j := j + EncodeLen(c);
      i := i + k;
    }
    CountEnd(src, j);
  }

  /** With room for the whole text the buffer holds it, and decoding it gives the text back. */
  lemma EnoughRoom(u: seq<unit>, t0: seq<byte>, t: seq<byte>)
    requires Terminated(u, t0, t) && |EncodeUnits(u)| < |t|
    ensures t[..|EncodeUnits(u)|] == EncodeUnits(u) && t[|EncodeUnits(u)|] == 0
    ensures DecodeUnits(t[..|EncodeUnits(u)|]) == u
  {
    FitBounds(u, |t|);
    UnitsRoundTrip(u);
    assert EncodeUnits(u)[..|EncodeUnits(u)|] == EncodeUnits(u);
  }
}
