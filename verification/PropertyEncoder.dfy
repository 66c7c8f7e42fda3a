/** The run-length tables from the other side: the bytes the tables hold for a set, and the bytes of their index
    (libunicode-table.h). Decoding and looking up give the set back. */
module PropertyEncoder {
  import opened Bytes
  import opened PointSets
  import opened CharSets
  import opened PropertyTable

  const RUN_LIMIT: nat := 0x20_0000

  predicate RunsOk(rs: seq<nat>) {
    forall k :: 0 <= k < |rs| ==> 0 < rs[k] <= RUN_LIMIT
  }

  /** One run in its shortest item, the high byte first. */
  function RunBytes(n: nat): (t: seq<byte>)
    requires 0 < n <= RUN_LIMIT
  {
    if n <= 128 then [0x80 + (n - 1)]
    else if n <= 8192 then [0x40 + (n - 1) / 256, (n - 1) % 256]
    else [0x60 + (n - 1) / 65536, (n - 1) / 256 % 256, (n - 1) % 256]
  }

  /** Two short runs share a byte. */
  predicate Paired(rs: seq<nat>) {
    |rs| >= 2 && rs[0] <= 8 && rs[1] <= 8
  }

  function PairBytes(a: nat, b: nat): (t: seq<byte>)
    requires 1 <= a <= 8 && 1 <= b <= 8
    ensures |t| == 1
  {
    [(a - 1) * 8 + (b - 1)]
  }

  function Encode(rs: seq<nat>): seq<byte>
    requires RunsOk(rs)
  {
    if rs == [] then []
    else if Paired(rs) then PairBytes(rs[0], rs[1]) + Encode(rs[2..])
    else RunBytes(rs[0]) + Encode(rs[1..])
  }

  // ----- What the bytes of a run are decoded as -----

  /** One byte for runs of 1 to 128. */
  lemma OneByteRun(t: seq<byte>, p: nat, n: nat)
    requires 1 <= n <= 128 && p < |t| && t[p] as int == 0x80 + (n - 1)
    ensures ItemRuns(t, p) == [n] && ItemSize(t[p]) == 1
  {
  }

  /** Two bytes for runs of 129 to 8192. */
  lemma TwoByteRun(t: seq<byte>, p: nat, n: nat)
    requires 1 <= n <= 8192 && p + 2 <= |t|
    requires t[p] as int == 0x40 + (n - 1) / 256 && t[p + 1] as int == (n - 1) % 256
    ensures ItemRuns(t, p) == [n] && ItemSize(t[p]) == 2
  {
  }

  /** Three bytes for longer ones. */
  lemma ThreeByteRun(t: seq<byte>, p: nat, n: nat)
    requires 1 <= n <= 0x20_0000 && p + 3 <= |t| && t[p] as int == 0x60 + (n - 1) / 65536
    requires t[p + 1] as int == (n - 1) / 256 % 256 && t[p + 2] as int == (n - 1) % 256
    ensures ItemRuns(t, p) == [n] && ItemSize(t[p]) == 3
  {
    ThreeParts(n - 1);
  }

  lemma ThreeParts(x: nat)
    ensures x == x / 65536 * 65536 + x / 256 % 256 * 256 + x % 256
  {
    assert x / 256 / 256 == x / 65536;
  }

  /** One byte for two runs of 1 to 8. */
  lemma PairByte(t: seq<byte>, p: nat, a: nat, b: nat)
    requires 1 <= a <= 8 && 1 <= b <= 8 && p < |t| && t[p] as int == (a - 1) * 8 + (b - 1)
    ensures ItemRuns(t, p) == [a, b] && ItemSize(t[p]) == 1
  {
  }

  lemma RunDecoded(t: seq<byte>, p: nat, n: nat)
    requires 0 < n <= RUN_LIMIT && p + |RunBytes(n)| <= |t| && t[p..p + |RunBytes(n)|] == RunBytes(n)
    ensures |RunBytes(n)| > 0 && ItemRuns(t, p) == [n] && ItemSize(t[p]) == |RunBytes(n)|
  {
    var b := RunBytes(n);
    assert t[p] == b[0];
    if n <= 128 {
      OneByteRun(t, p, n);
    } else if n <= 8192 {
      assert t[p + 1] == b[1];
      TwoByteRun(t, p, n);
    } else {
      assert t[p + 1] == b[1] && t[p + 2] == b[2];
      ThreeByteRun(t, p, n);
    }
  }

  // ----- Whole tables -----

  /** Decoding an item and going on. */
  lemma ItemThen(t: seq<byte>, p: nat, q: nat, first: seq<nat>, rest: seq<nat>)
    requires p < |t| && q == p + ItemSize(t[p]) <= |t| && ItemRuns(t, p) == first && Whole(t, q) && Runs(t, q) == rest
    ensures Whole(t, p) && Runs(t, p) == first + rest
  {
    hide ItemRuns;
    hide ItemSize;
  }

  lemma Parted(a: seq<byte>, b: seq<byte>, c: seq<byte>)
    ensures var t := a + (b + c);
      t == a + b + c && |a + b| == |a| + |b| <= |t| && t[|a|..|a| + |b|] == b && (b != [] ==> t[|a|] == b[0])
  {
  }

  lemma EncodeIs(rs: seq<nat>)
    requires RunsOk(rs) && rs != []
    ensures RunsOk(rs[1..]) && rs == [rs[0]] + rs[1..]
    ensures !Paired(rs) ==> Encode(rs) == RunBytes(rs[0]) + Encode(rs[1..])
    ensures Paired(rs) ==> RunsOk(rs[2..]) && rs == [rs[0], rs[1]] + rs[2..]
    ensures Paired(rs) ==> Encode(rs) == PairBytes(rs[0], rs[1]) + Encode(rs[2..])
  {
    hide RunBytes;
  }

  /** Behind any bytes, the bytes of a list of runs are decoded as the list. */
  lemma {:induction false} EncodeRuns(a: seq<byte>, rs: seq<nat>)
    requires RunsOk(rs)
    ensures var t := a + Encode(rs); Whole(t, |a|) && Runs(t, |a|) == rs
    decreases |rs|
  {
    hide *;
    if rs == [] {
      EncodeNone(a, rs);
    } else {
      EncodeIs(rs);
      PairedIs(rs);
      var t := a + Encode(rs);
      if Paired(rs) {
        var b := PairBytes(rs[0], rs[1]);
        EncodeRuns(a + b, rs[2..]);
        Parted(a, b, Encode(rs[2..]));
        PairByte(t, |a|, rs[0], rs[1]);
        ItemThen(t, |a|, |a| + 1, [rs[0], rs[1]], rs[2..]);
      } else {
        FirstOk(rs);
        var b := RunBytes(rs[0]);
        EncodeRuns(a + b, rs[1..]);
        Parted(a, b, Encode(rs[1..]));
        RunDecoded(t, |a|, rs[0]);
        ItemThen(t, |a|, |a| + |b|, [rs[0]], rs[1..]);
      }
    }
  }

  lemma EncodeNone(a: seq<byte>, rs: seq<nat>)
    requires rs == []
    ensures RunsOk(rs) && a + Encode(rs) == a && Whole(a, |a|) && Runs(a, |a|) == rs
  {
  }

  lemma FirstOk(rs: seq<nat>)
    requires RunsOk(rs) && rs != []
    ensures 0 < rs[0] <= RUN_LIMIT
  {
  }

  lemma PairedIs(rs: seq<nat>)
    requires RunsOk(rs)
    ensures Paired(rs) ==> |rs| >= 2 && 1 <= rs[0] <= 8 && 1 <= rs[1] <= 8
    ensures Paired(rs) ==> PairBytes(rs[0], rs[1]) == [(rs[0] - 1) * 8 + (rs[1] - 1)]
  {
  }

  /** The runs of a set, from `c` on. */
  function Gaps(pts: seq<int>, c: int): seq<int> {
    if pts == [] then [] else [pts[0] - c] + Gaps(pts[1..], pts[0])
  }

  /** Sets of code points that a table can hold: it begins with a run outside the set. */
  ghost predicate Encodable(pts: seq<int>) {
    Canonical(pts) && forall i :: 0 <= i < |pts| ==> 0 < pts[i] <= 0x11_0000
  }

  lemma {:induction false} GapsOk(pts: seq<int>, c: nat)
    requires Increasing(pts) && forall i :: 0 <= i < |pts| ==> c < pts[i] <= 0x11_0000
    ensures forall k :: 0 <= k < |Gaps(pts, c)| ==> 0 < Gaps(pts, c)[k] <= RUN_LIMIT
  {
    if pts != [] {
      GapsOk(pts[1..], pts[0]);
    }
  }

  /** The bytes for a set. */
  ghost function Table(pts: seq<int>): seq<byte>
    requires Encodable(pts)
  {
    GapsOk(pts, 0);
    Encode(Gaps(pts, 0))
  }

  /** Counting points and alternating runs say the same. */
  lemma {:induction false} GapsMean(pts: seq<int>, c: nat, bit: bool, rs: seq<nat>, x: nat)
    requires Increasing(pts) && (forall i :: 0 <= i < |pts| ==> c < pts[i]) && bit == (|pts| % 2 == 1)
    requires rs == Gaps(pts, c) && c <= x
    ensures InRuns(rs, c, bit, x) == (Member(pts, x) != bit)
    decreases |pts|
  {
    if pts == [] {
      assert !Member(pts, x);
    } else {
      assert rs[0] == pts[0] - c;
      if x < pts[0] {
        CountNone(pts, x);
      } else {
        assert rs[1..] == Gaps(pts[1..], pts[0]);
        GapsMean(pts[1..], pts[0], !bit, rs[1..], x);
      }
    }
  }

  /** A table with the runs of a set describes the set, and no other. */
  lemma RunsDescribe(t: seq<byte>, pts: seq<int>)
    requires Encodable(pts) && Whole(t, 0) && Runs(t, 0) == Gaps(pts, 0)
    ensures Describes(t, pts) && forall q :: Describes(t, q) ==> q == pts
  {
    hide Whole;
    hide Runs;
    forall x: nat ensures Member(pts, x) == InRuns(Runs(t, 0), 0, false, x) {
      GapsMean(pts, 0, false, Runs(t, 0), x);
    }
    hide InRuns;
    forall q | Describes(t, q) ensures q == pts {
      SameDescribed(t, pts, q);
    }
  }

  lemma TableDescribes(pts: seq<int>)
    requires Encodable(pts)
    ensures var t := Table(pts);
      Whole(t, 0) && Describes(t, pts) && forall q :: Describes(t, q) ==> q == pts
  {
    GapsOk(pts, 0);
    hide *;
    var rs: seq<nat>, t := Gaps(pts, 0), Table(pts);
    TableIs(pts, rs);
    EncodeRuns([], rs);
    assert [] + Encode(rs) == t;
    RunsDescribe(t, pts);
  }

  lemma TableIs(pts: seq<int>, rs: seq<nat>)
    requires Encodable(pts) && rs == Gaps(pts, 0)
    ensures RunsOk(rs) && Table(pts) == Encode(rs)
  {
    GapsOk(pts, 0);
    hide Encode;
  }

  lemma SameDescribed(t: seq<byte>, p: seq<int>, q: seq<int>)
    requires Whole(t, 0) && Describes(t, p) && Describes(t, q)
    ensures p == q
  {
    hide Runs;
    hide InRuns;
    forall x ensures Member(p, x) == Member(q, x) {
      if x < 0 {
        CountNone(p, x);
        CountNone(q, x);
      } else {
        assert Member(p, x) == InRuns(Runs(t, 0), 0, false, x);
      }
    }
    CanonicalUnique(p, q);
  }

  /** `unicode_prop1` on the table of a set gives the set back, interval by interval. */
  method DecodeTable(pts: seq<int>, t: seq<byte>, cr: CharRange)
    requires Encodable(pts) && t == Table(pts) && cr.points == []
    modifies cr
    ensures cr.points == pts
  {
    TableDescribes(pts);
    hide *;
    Prop(t, cr);
  }

  /** `lre_is_in_table` on the table of a set says what is in the set, with any index that fits. */
  method FindInTable(pts: seq<int>, t: seq<byte>, ix: seq<byte>, n: nat, c: nat) returns (r: bool)
    requires Encodable(pts) && t == Table(pts) && IndexOk(t, ix, n)
    ensures r == Member(pts, c)
  {
    TableDescribes(pts);
    hide *;
    r := IsInTable(t, ix, n, c);
  }

  // ----- The index -----

  /** The three bytes of an entry: 21 bits of code point, lowest byte first, and the offset in the three bits above. */
  function EntryBytes(code: nat, offset: nat): (b: seq<byte>)
    requires code < 0x20_0000 && offset < 8
    ensures |b| == 3
  {
    [code % 256, code / 256 % 256, code / 65536 + 32 * offset]
  }

  /** Where such an entry leads. */
  lemma EntryLaw(ix: seq<byte>, k: nat, code: nat, offset: nat)
    requires code < 0x20_0000 && offset < 8
    requires 3 * k + 3 <= |ix| && ix[3 * k..3 * k + 3] == EntryBytes(code, offset)
    ensures EntryCode(ix, k) == code && EntryPos(ix, k) == 32 * (k + 1) + offset
    ensures offset == 0 ==> GetLe24(ix, k) == code
  {
    var b := EntryBytes(code, offset);
    assert ix[3 * k] == b[0] && ix[3 * k + 1] == b[1] && ix[3 * k + 2] == b[2];
    ThreeParts(code);
    assert GetLe24(ix, k) == code + 0x20_0000 * offset;
  }

  /** An entry: the code point and the offset into its block. */
  type Block = (nat, nat)

  predicate BlocksOk(bs: seq<Block>) {
    forall k :: 0 <= k < |bs| ==> bs[k].0 < 0x20_0000 && bs[k].1 < 8
  }

  /** The entries in order. */
  function IndexBytes(bs: seq<Block>): (ix: seq<byte>)
    requires BlocksOk(bs)
    ensures |ix| == 3 * |bs|
  {
    if bs == [] then []
    else IndexBytes(bs[..|bs| - 1]) + EntryBytes(bs[|bs| - 1].0, bs[|bs| - 1].1)
  }

  lemma {:induction false} IndexAt(bs: seq<Block>, k: nat)
    requires BlocksOk(bs) && k < |bs|
    ensures IndexBytes(bs)[3 * k..3 * k + 3] == EntryBytes(bs[k].0, bs[k].1)
    decreases |bs|
  {
    var last := |bs| - 1;
    var ix := IndexBytes(bs[..last]);
    hide EntryBytes;
    if k < last {
      IndexAt(bs[..last], k);
      assert IndexBytes(bs)[3 * k..3 * k + 3] == ix[3 * k..3 * k + 3];
    }
  }

  /** The index made of block beginnings that decoding passes outside the set, closed by the end of the set, fits. */
  lemma IndexFits(pts: seq<int>, t: seq<byte>, bs: seq<Block>, end: nat)
    requires Encodable(pts) && t == Table(pts) && Whole(t, 0) && BlocksOk(bs)
    requires forall k :: 0 <= k < |bs| ==> Reaches(t, 0, 0, false, 32 * (k + 1) + bs[k].1, bs[k].0, false)
    requires end <= Total(Runs(t, 0)) && end < 0x20_0000 && forall i :: 0 <= i < |pts| ==> pts[i] <= end
    ensures BlocksOk(bs + [(end, 0)]) && IndexOk(t, IndexBytes(bs + [(end, 0)]), |bs| + 1)
  {
    hide *;
    var all, n := bs + [(end, 0)], |bs| + 1;
    AllBlocks(bs, end);
    var ix := IndexBytes(all);
    forall k: nat | k < n - 1 ensures Reaches(t, 0, 0, false, EntryPos(ix, k), EntryCode(ix, k), false) {
      BlockOk(all, k);
      IndexAt(all, k);
      EntryLaw(ix, k, bs[k].0, bs[k].1);
    }
    IndexAt(all, n - 1);
    EntryLaw(ix, n - 1, end, 0);
    TableDescribes(pts);
    forall c: nat | end <= c ensures !InRuns(Runs(t, 0), 0, false, c) {
      PastEnd(t, pts, end, c);
    }
    IndexOkIs(t, ix, n, end);
  }

  lemma AllBlocks(bs: seq<Block>, end: nat)
    requires BlocksOk(bs) && end < 0x20_0000
    ensures BlocksOk(bs + [(end, 0)])
  {
  }

  lemma BlockOk(bs: seq<Block>, k: nat)
    requires BlocksOk(bs) && k < |bs|
    ensures bs[k].0 < 0x20_0000 && bs[k].1 < 8
  {
  }

  lemma PastEnd(t: seq<byte>, pts: seq<int>, end: nat, c: nat)
    requires Whole(t, 0) && Describes(t, pts) && end <= c && forall i :: 0 <= i < |pts| ==> pts[i] <= end
    ensures !InRuns(Runs(t, 0), 0, false, c)
  {
    hide Runs;
    hide InRuns;
    assert Member(pts, c) == InRuns(Runs(t, 0), 0, false, c);
    CountAll(pts, c);
  }

  lemma IndexOkIs(t: seq<byte>, ix: seq<byte>, n: nat, end: nat)
    requires n > 0 && |ix| == 3 * n && Whole(t, 0) && end < 0x20_0000
    requires forall k: nat :: k < n - 1 ==> Reaches(t, 0, 0, false, EntryPos(ix, k), EntryCode(ix, k), false)
    requires GetLe24(ix, n - 1) == end <= Total(Runs(t, 0))
    requires forall c: nat :: end <= c ==> !InRuns(Runs(t, 0), 0, false, c)
    ensures IndexOk(t, ix, n)
  {
    hide Reaches;
    hide Runs;
    hide InRuns;
    hide GetLe24;
    hide EntryPos;
    hide EntryCode;
  }

  // ----- A table of the repository -----

  /** The white space characters. */
  const WHITE_SPACE: seq<int> := [0x9, 0xE, 0x20, 0x21, 0x85, 0x86, 0xA0, 0xA1, 0x1680, 0x1681, 0x2000, 0x200B,
                                  0x2028, 0x202A, 0x202F, 0x2030, 0x205F, 0x2060, 0x3000, 0x3001]

  /** `unicode_prop_White_Space_table`. */
  const WHITE_SPACE_TABLE: seq<byte> := [0x88, 0x84, 0x91, 0x80, 0xE3, 0x80, 0x99, 0x80, 0x55, 0xDE, 0x80, 0x49, 0x7E,
                                         0x8A, 0x9C, 0x0C, 0x80, 0xAE, 0x80, 0x4F, 0x9F, 0x80]

  function PointBefore(k: nat): int
    requires k <= |WHITE_SPACE|
  {
    if k == 0 then 0 else WHITE_SPACE[k - 1]
  }

  /** Decoding from byte `p` on gives the points from the `k`-th on. */
  predicate DecodesFrom(p: nat, k: nat) {
    && k <= |WHITE_SPACE| && Whole(WHITE_SPACE_TABLE, p)
    && Runs(WHITE_SPACE_TABLE, p) == Gaps(WHITE_SPACE[k..], PointBefore(k))
  }

  lemma LastByte()
    ensures DecodesFrom(22, 20)
  {
    assert WHITE_SPACE[20..] == [];
  }

  lemma Decodes(p: nat, size: nat, k: nat, n: nat)
    requires p < 22 && k < 20 && DecodesFrom(p + size, k + 1) && p + size <= 22
    requires ItemRuns(WHITE_SPACE_TABLE, p) == [n] && ItemSize(WHITE_SPACE_TABLE[p]) == size
    requires WHITE_SPACE[k] - PointBefore(k) == n
    ensures DecodesFrom(p, k)
  {
    var pts := WHITE_SPACE[k..];
    assert pts[1..] == WHITE_SPACE[k + 1..] && pts[0] == WHITE_SPACE[k];
    ItemThen(WHITE_SPACE_TABLE, p, p + size, [n], Runs(WHITE_SPACE_TABLE, p + size));
    hide ItemRuns, ItemSize, Whole, Runs;
  }

  lemma DecodesPair(p: nat, k: nat, m: nat, n: nat)
    requires p < 22 && k < 19 && DecodesFrom(p + 1, k + 2)
    requires ItemRuns(WHITE_SPACE_TABLE, p) == [m, n] && ItemSize(WHITE_SPACE_TABLE[p]) == 1
    requires WHITE_SPACE[k] - PointBefore(k) == m && WHITE_SPACE[k + 1] - WHITE_SPACE[k] == n
    ensures DecodesFrom(p, k)
  {
    hide *;
    PointsBefore(k);
    DecodesFromIs(p + 1, k + 2);
    DecodesFromIs(p, k);
    TwoGaps(WHITE_SPACE, k, PointBefore(k));
    ItemThen(WHITE_SPACE_TABLE, p, p + 1, [m, n], Runs(WHITE_SPACE_TABLE, p + 1));
  }

  lemma PointsBefore(k: nat)
    requires k < 19
    ensures |WHITE_SPACE| == 20 && |WHITE_SPACE_TABLE| == 22 && PointBefore(k + 2) == WHITE_SPACE[k + 1]
  {
  }

  lemma TwoGaps(pts: seq<int>, k: nat, c: int)
    requires k + 1 < |pts|
    ensures Gaps(pts[k..], c) == [pts[k] - c, pts[k + 1] - pts[k]] + Gaps(pts[k + 2..], pts[k + 1])
  {
    hide Gaps;
    GapsNext(pts, k, c);
    GapsNext(pts, k + 1, pts[k]);
    assert k + 1 + 1 == k + 2;
  }

  lemma GapsNext(pts: seq<int>, k: nat, c: int)
    requires k < |pts|
    ensures Gaps(pts[k..], c) == [pts[k] - c] + Gaps(pts[k + 1..], pts[k])
  {
    assert pts[k..][1..] == pts[k + 1..];
  }

  lemma DecodesFromIs(p: nat, k: nat)
    requires k <= 20
    ensures |WHITE_SPACE| == 20
    ensures DecodesFrom(p, k)
        <==> && Whole(WHITE_SPACE_TABLE, p)
             && Runs(WHITE_SPACE_TABLE, p) == Gaps(WHITE_SPACE[k..], PointBefore(k))
  {
    hide Whole, Runs, Gaps;
  }

  lemma SecondHalf()
    ensures DecodesFrom(11, 10)
  {
    hide DecodesFrom;
    LastByte();
    Decodes(21, 1, 19, 1);
    Decodes(19, 2, 18, 4000);
    Decodes(18, 1, 17, 1);
    Decodes(17, 1, 16, 47);
    Decodes(16, 1, 15, 1);
    DecodesPair(15, 13, 2, 5);
    Decodes(14, 1, 12, 29);
    Decodes(13, 1, 11, 11);
    Decodes(11, 2, 10, 2431);
  }

  lemma SecondQuarter()
    ensures DecodesFrom(5, 5)
  {
    hide DecodesFrom;
    SecondHalf();
    Decodes(10, 1, 9, 1);
    Decodes(8, 2, 8, 5599);
    Decodes(7, 1, 7, 1);
    Decodes(6, 1, 6, 26);
    Decodes(5, 1, 5, 1);
  }

  lemma FirstQuarter()
    ensures DecodesFrom(0, 0)
  {
    hide DecodesFrom;
    SecondQuarter();
    Decodes(4, 1, 4, 100);
    Decodes(3, 1, 3, 1);
    Decodes(2, 1, 2, 18);
    Decodes(1, 1, 1, 5);
    Decodes(0, 1, 0, 9);
  }

  /** `unicode_prop_White_Space_table` holds exactly the white space characters. */
  lemma WhiteSpace()
    ensures Whole(WHITE_SPACE_TABLE, 0) && Describes(WHITE_SPACE_TABLE, WHITE_SPACE)
    ensures forall q :: Describes(WHITE_SPACE_TABLE, q) ==> q == WHITE_SPACE
  {
    WhiteSpaceEncodable();
    hide *;
    FirstQuarter();
    DecodesFromIs(0, 0);
    RunsDescribe(WHITE_SPACE_TABLE, WHITE_SPACE);
  }

  lemma WhiteSpaceEncodable()
    ensures Encodable(WHITE_SPACE) && WHITE_SPACE[0..] == WHITE_SPACE && PointBefore(0) == 0
  {
  }
}
