/** Run-length tables of code points (libunicode.c): decoded from the start by `unicode_prop1`, looked
    up through an index by `lre_is_in_table`. */
module PropertyTable {
  import opened Bytes
  import opened PointSets
  import opened CharSets

  /** The table bytes of one item. */
  function ItemSize(b: byte): (n: nat)
    ensures 1 <= n <= 3
  {
    if b < 64 || b >= 0x80 then 1 else if b < 0x60 then 2 else 3
  }

  /** The length of the run of an item that is not a pair. */
  function RunLength(t: seq<byte>, p: nat): (n: nat)
    requires p < |t| && p + ItemSize(t[p]) <= |t| && t[p] >= 64
    ensures n > 0
  {
    var b: int := t[p];
    if b >= 0x80 then b - 0x80 + 1
    else
      var b1: int := t[p + 1];
      if b < 0x60 then (b - 0x40) * 256 + b1 + 1 else (b - 0x60) * 65536 + b1 * 256 + t[p + 2] + 1
  }

  /** The lengths of the one or two runs of the item at `p`. */
  function ItemRuns(t: seq<byte>, p: nat): (rs: seq<nat>)
    requires p < |t| && p + ItemSize(t[p]) <= |t|
    ensures 1 <= |rs| <= 2 && forall k :: 0 <= k < |rs| ==> rs[k] > 0
  {
    if t[p] < 64 then [t[p] / 8 + 1, t[p] % 8 + 1] else [RunLength(t, p)]
  }

  /** From `p` on the table is a list of whole items. */
  predicate Whole(t: seq<byte>, p: nat)
    decreases |t| - p
  {
    p == |t| || (p < |t| && p + ItemSize(t[p]) <= |t| && Whole(t, p + ItemSize(t[p])))
  }

  /** The run lengths from `p` on. */
  function Runs(t: seq<byte>, p: nat): (rs: seq<nat>)
    requires Whole(t, p)
    ensures forall k :: 0 <= k < |rs| ==> rs[k] > 0
    decreases |t| - p
  {
    if p == |t| then [] else ItemRuns(t, p) + Runs(t, p + ItemSize(t[p]))
  }

  /** Runs from `code` on are out of and in the set by turns; `bit` says how the first is. */
  predicate InRuns(rs: seq<nat>, code: nat, bit: bool, c: nat) {
    rs != [] && if c < code + rs[0] then bit && code <= c else InRuns(rs[1..], code + rs[0], !bit, c)
  }

  function Total(rs: seq<nat>): nat {
    if rs == [] then 0 else rs[0] + Total(rs[1..])
  }

  predicate NonNegative(pts: seq<int>) {
    forall i :: 0 <= i < |pts| ==> 0 <= pts[i]
  }

  /** `pts` is the set the table describes. */
  ghost predicate Describes(t: seq<byte>, pts: seq<int>)
    requires Whole(t, 0)
  {
    && Canonical(pts) && NonNegative(pts)
    && forall x: nat :: Member(pts, x) == InRuns(Runs(t, 0), 0, false, x)
  }

  // ----- unicode_prop1 -----

  predicate SoFar(pts: seq<int>, rs: seq<nat>, c: nat, bit: bool, x: nat) {
    Member(pts, x) || InRuns(rs, c, bit, x)
  }

  /** The intervals below `c` are in `pts`, the runs `rs` from `c` on are still to come. */
  ghost predicate Building(all: seq<nat>, pts: seq<int>, rs: seq<nat>, c: nat, bit: bool) {
    && Canonical(pts) && NonNegative(pts) && AllAtMost(pts, c) && (bit && pts != [] ==> pts[|pts| - 1] < c)
    && forall x: nat :: SoFar(pts, rs, c, bit, x) == InRuns(all, 0, false, x)
  }

  function WithRun(pts: seq<int>, c: nat, e: nat, bit: bool): seq<int> {
    if bit then pts + [c, e] else pts
  }

  lemma RunStep(all: seq<nat>, pts: seq<int>, rs: seq<nat>, c: nat, bit: bool)
    requires Building(all, pts, rs, c, bit) && rs != [] && rs[0] > 0
    ensures Building(all, WithRun(pts, c, c + rs[0], bit), rs[1..], c + rs[0], !bit)
  {
    var e, qs, ts := c + rs[0], WithRun(pts, c, c + rs[0], bit), rs[1..];
    var flip := !bit;
    forall x: nat ensures SoFar(qs, ts, e, flip, x) == InRuns(all, 0, false, x) {
      assert SoFar(pts, rs, c, bit, x) == InRuns(all, 0, false, x);
      RunAt(pts, rs, c, bit, x);
    }
    RunOrder(pts, c, e, bit);
    hide SoFar, InRuns, Increasing, NonNegative, AllAtMost, WithRun;
  }

  /** The list stays in order. */
  lemma RunOrder(pts: seq<int>, c: nat, e: nat, bit: bool)
    requires Canonical(pts) && NonNegative(pts) && AllAtMost(pts, c) && c < e
    requires bit && pts != [] ==> pts[|pts| - 1] < c
    ensures var qs := WithRun(pts, c, e, bit);
      && Canonical(qs) && NonNegative(qs) && AllAtMost(qs, e) && (!bit && qs != [] ==> qs[|qs| - 1] < e)
  {
    if bit {
      IncreasingPair(pts, c, e);
    }
  }

  lemma RunAt(pts: seq<int>, rs: seq<nat>, c: nat, bit: bool, x: nat)
    requires AllAtMost(pts, c) && |pts| % 2 == 0 && rs != [] && rs[0] > 0
    ensures SoFar(pts, rs, c, bit, x) == SoFar(WithRun(pts, c, c + rs[0], bit), rs[1..], c + rs[0], !bit, x)
  {
    var e := c + rs[0];
    NotBelow(rs[1..], e, !bit, x);
    if x >= c {
      CountAll(pts, x);
    }
    if bit {
      MemberConcat(pts, [c, e], x);
      MemberPair(c, e, x);
    }
  }

  lemma NotBelow(rs: seq<nat>, code: nat, bit: bool, x: nat)
    ensures x < code ==> !InRuns(rs, code, bit, x)
  {
  }

  lemma BuildStart(all: seq<nat>)
    ensures Building(all, [], all, 0, false)
  {
  }

  lemma BuildEnd(t: seq<byte>, pts: seq<int>, c: nat, bit: bool)
    requires Whole(t, 0) && Building(Runs(t, 0), pts, [], c, bit)
    ensures Describes(t, pts)
  {
    forall x: nat ensures Member(pts, x) == InRuns(Runs(t, 0), 0, false, x) {
      assert SoFar(pts, [], c, bit, x) == InRuns(Runs(t, 0), 0, false, x);
    }
  }

  lemma OneRun(t: seq<byte>, p: nat)
    requires p < |t| && Whole(t, p) && t[p] >= 64
    ensures p + ItemSize(t[p]) <= |t| && Whole(t, p + ItemSize(t[p]))
    ensures Runs(t, p) != [] && Runs(t, p)[0] == RunLength(t, p)
    ensures Runs(t, p)[1..] == Runs(t, p + ItemSize(t[p]))
  {
  }

  lemma TwoRuns(t: seq<byte>, p: nat)
    requires p < |t| && Whole(t, p) && t[p] < 64
    ensures Whole(t, p + 1) && |Runs(t, p)| >= 2
    ensures Runs(t, p)[0] == t[p] / 8 + 1 && Runs(t, p)[1] == t[p] % 8 + 1
    ensures Runs(t, p)[1..][1..] == Runs(t, p + 1)
  {
  }

  /** The branches for an item with one run: its length and the bytes it takes. */
  method LongItem(t: seq<byte>, p: nat) returns (n: nat, size: nat)
    requires p < |t| && p + ItemSize(t[p]) <= |t| && t[p] >= 64
    ensures n == RunLength(t, p) && size == ItemSize(t[p])
  {
    var b: int := t[p];
    if b >= 0x80 {
      n, size := b - 0x80 + 1, 1;
    } else if b < 0x60 {
      n, size := (b - 0x40) * 256 + t[p + 1] + 1, 2;
    } else {
      var b1: int := t[p + 1];
      n, size := (b - 0x60) * 65536 + b1 * 256 + t[p + 2] + 1, 3;
    }
  }

  /** `unicode_prop1` on an empty range. */
  method Prop(t: seq<byte>, cr: CharRange)
    requires Whole(t, 0) && cr.points == []
    modifies cr
    ensures Describes(t, cr.points)
  {
    hide *;
    var p: nat, c: nat, bit := 0, 0, false;
    ghost var all := Runs(t, 0);
    BuildStart(all);
    while p < |t|
      invariant p <= |t| && Whole(t, p) && Building(all, cr.points, Runs(t, p), c, bit)
      decreases |t| - p
    {
      var c0 := c;
      var b: int := t[p];
      ghost var rs, pts := Runs(t, p), cr.points;
      if b < 64 {
        TwoRuns(t, p);
        RunStep(all, pts, rs, c, bit);
        c := c + b / 8 + 1;
        if bit {
          cr.AddInterval(c0, c);
        }
        RunAdded(pts, c0, c, bit);
        bit := !bit;
        rs, pts := rs[1..], cr.points;
        c0 := c;
        c := c + b % 8 + 1;
        p := p + 1;
      } else {
        OneRun(t, p);
        var n, size := LongItem(t, p);
        c := c + n;
        p := p + size;
      }
      RunStep(all, pts, rs, c0, bit);
      if bit {
        cr.AddInterval(c0, c);
      }
      RunAdded(pts, c0, c, bit);
      bit := !bit;
    }
    NoRuns(t);
    BuildEnd(t, cr.points, c, bit);
  }

  lemma RunAdded(pts: seq<int>, c: nat, e: nat, bit: bool)
    ensures WithRun(pts, c, e, bit) == if bit then pts + [c, e] else pts
  {
  }

  lemma NoRuns(t: seq<byte>)
    ensures Whole(t, |t|) && Runs(t, |t|) == []
  {
  }

  // ----- get_index_pos and lre_is_in_table -----

  const INDEX_BLOCK_LEN: nat := 32
  const CODE_LIMIT: nat := 0x20_0000

  function GetLe24(ix: seq<byte>, k: nat): nat
    requires 3 * k + 3 <= |ix|
  {
    var b0: int, b1: int, b2: int := ix[3 * k], ix[3 * k + 1], ix[3 * k + 2];
    b0 + 256 * b1 + 65536 * b2
  }

  /** The first code point of the block of entry `k`, 21 bits. */
  function EntryCode(ix: seq<byte>, k: nat): nat
    requires 3 * k + 3 <= |ix|
  {
    GetLe24(ix, k) % CODE_LIMIT
  }

  /** Where the block of entry `k` begins in the table; the top three bits are an offset. */
  function EntryPos(ix: seq<byte>, k: nat): nat
    requires 3 * k + 3 <= |ix|
  {
    (k + 1) * INDEX_BLOCK_LEN + GetLe24(ix, k) / CODE_LIMIT
  }

  /** Decoding from `p` comes to `q`, at code point `code2`, with `bit2`. */
  predicate Reaches(t: seq<byte>, p: nat, code: nat, bit: bool, q: nat, code2: nat, bit2: bool)
    decreases |t| - p
  {
    || (p == q && code == code2 && bit == bit2)
    || (p < |t| && p + ItemSize(t[p]) <= |t|
        && Reaches(t, p + ItemSize(t[p]), code + Total(ItemRuns(t, p)), bit != (t[p] >= 64), q, code2, bit2))
  }

  /** What the generated index promises: entries stand where decoding reaches an even run, and the last one, which
      only ends the search, is not past the end and not below a member. */
  ghost predicate IndexOk(t: seq<byte>, ix: seq<byte>, n: nat) {
    && n > 0 && |ix| == 3 * n && Whole(t, 0)
    && (forall k: nat :: k < n - 1 ==> Reaches(t, 0, 0, false, EntryPos(ix, k), EntryCode(ix, k), false))
    && GetLe24(ix, n - 1) < CODE_LIMIT && GetLe24(ix, n - 1) <= Total(Runs(t, 0))
    && forall c: nat :: GetLe24(ix, n - 1) <= c ==> !InRuns(Runs(t, 0), 0, false, c)
  }

  lemma TotalConcat(rs: seq<nat>, ts: seq<nat>)
    ensures Total(rs + ts) == Total(rs) + Total(ts)
  {
    if rs == [] {
      assert rs + ts == ts;
    } else {
      assert (rs + ts)[1..] == rs[1..] + ts;
      TotalConcat(rs[1..], ts);
    }
  }

  lemma TotalPair(rs: seq<nat>)
    requires |rs| == 2
    ensures Total(rs) == rs[0] + rs[1]
  {
    assert rs[1..][1..] == [];
    assert Total(rs[1..]) == rs[1];
  }

  lemma SkipOne(rs: seq<nat>, code: nat, bit: bool, c: nat)
    requires rs != [] && code + rs[0] <= c
    ensures InRuns(rs, code, bit, c) == InRuns(rs[1..], code + rs[0], !bit, c)
  {
  }

  lemma SkipTwo(rs: seq<nat>, code: nat, bit: bool, c: nat)
    requires |rs| >= 2 && code + (rs[0] + rs[1]) <= c
    ensures InRuns(rs, code, bit, c) == InRuns(rs[1..][1..], code + (rs[0] + rs[1]), bit, c)
  {
    SkipOne(rs, code, bit, c);
    SkipOne(rs[1..], code + rs[0], !bit, c);
  }

  lemma ItemTotal(t: seq<byte>, p: nat)
    requires p < |t| && p + ItemSize(t[p]) <= |t|
    ensures t[p] < 64 ==> Total(ItemRuns(t, p)) == (t[p] / 8 + 1) + (t[p] % 8 + 1) && ItemSize(t[p]) == 1
    ensures t[p] >= 64 ==> Total(ItemRuns(t, p)) == RunLength(t, p)
  {
    if t[p] < 64 {
      TotalPair(ItemRuns(t, p));
    } else {
      assert ItemRuns(t, p)[1..] == [];
    }
  }

  /** Past an item, the rest of the table decides. */
  lemma ItemSkipped(t: seq<byte>, p: nat, code: nat, bit: bool, c: nat)
    requires p < |t| && Whole(t, p) && p + ItemSize(t[p]) <= |t| && code + Total(ItemRuns(t, p)) <= c
    requires Whole(t, p + ItemSize(t[p]))
    ensures InRuns(Runs(t, p), code, bit, c)
         == InRuns(Runs(t, p + ItemSize(t[p])), code + Total(ItemRuns(t, p)), bit != (t[p] >= 64), c)
  {
    hide *;
    ItemTotal(t, p);
    if t[p] < 64 {
      TwoRuns(t, p);
      SkipTwo(Runs(t, p), code, bit, c);
    } else {
      OneRun(t, p);
      SkipOne(Runs(t, p), code, bit, c);
    }
  }

  /** The first of the items to `q`. */
  lemma ReachesStep(t: seq<byte>, p: nat, code: nat, bit: bool, q: nat, code2: nat, bit2: bool)
    requires Whole(t, p) && Reaches(t, p, code, bit, q, code2, bit2) && !(p == q && code == code2 && bit == bit2)
    ensures p < |t| && p + ItemSize(t[p]) <= |t| && Whole(t, p + ItemSize(t[p]))
    ensures Reaches(t, p + ItemSize(t[p]), code + Total(ItemRuns(t, p)), bit != (t[p] >= 64), q, code2, bit2)
    ensures Runs(t, p) == ItemRuns(t, p) + Runs(t, p + ItemSize(t[p]))
  {
    hide ItemSize, ItemRuns, Total;
  }

  lemma WholeWithin(t: seq<byte>, p: nat)
    requires Whole(t, p)
    ensures p <= |t|
  {
    hide ItemSize;
  }

  lemma {:induction false} ReachedSame(t: seq<byte>, p: nat, code: nat, bit: bool, q: nat, code2: nat, bit2: bool,
      c: nat)
    requires Whole(t, p) && Reaches(t, p, code, bit, q, code2, bit2)
    ensures Whole(t, q) && q <= |t| && code2 + Total(Runs(t, q)) == code + Total(Runs(t, p))
    ensures code2 <= c ==> InRuns(Runs(t, p), code, bit, c) == InRuns(Runs(t, q), code2, bit2, c)
    decreases |t| - p
  {
    hide *;
    WholeWithin(t, p);
    if !(p == q && code == code2 && bit == bit2) {
      ReachesStep(t, p, code, bit, q, code2, bit2);
      var p2, code3, bit3 := p + ItemSize(t[p]), code + Total(ItemRuns(t, p)), bit != (t[p] >= 64);
      ReachedSame(t, p2, code3, bit3, q, code2, bit2, c);
      ReachedLater(t, p2, code3, bit3, q, code2, bit2);
      TotalConcat(ItemRuns(t, p), Runs(t, p2));
      if code2 <= c {
        ItemSkipped(t, p, code, bit, c);
      }
    }
  }

  lemma {:induction false} ReachedLater(t: seq<byte>, p: nat, code: nat, bit: bool, q: nat, code2: nat, bit2: bool)
    requires Whole(t, p) && Reaches(t, p, code, bit, q, code2, bit2)
    ensures code <= code2
    decreases |t| - p
  {
    hide *;
    if !(p == q && code == code2 && bit == bit2) {
      ReachesStep(t, p, code, bit, q, code2, bit2);
      ReachedLater(t, p + ItemSize(t[p]), code + Total(ItemRuns(t, p)), bit != (t[p] >= 64), q, code2, bit2);
    }
  }

  /** `get_index_pos`: the block to look in and its first code point, or nothing when `c` is past the table. */
  method IndexPos(t: seq<byte>, ix: seq<byte>, n: nat, c: nat) returns (found: bool, pos: nat, code: nat)
    requires IndexOk(t, ix, n)
    ensures found == (c < GetLe24(ix, n - 1) || c < EntryCode(ix, 0))
    ensures found ==> Reaches(t, 0, 0, false, pos, code, false) && code <= c
  {
    if c < EntryCode(ix, 0) {
      return true, 0, 0;
    }
    var lo, hi := 0, n - 1;
    if c >= GetLe24(ix, hi) {
      return false, 0, 0;
    }
    while hi - lo > 1
      invariant 0 <= lo < hi <= n - 1
      invariant EntryCode(ix, lo) <= c
    {
      var mid := (hi + lo) / 2;
      if c < EntryCode(ix, mid) {
        hi := mid;
      } else {
        lo := mid;
      }
    }
    found, pos, code := true, EntryPos(ix, lo), EntryCode(ix, lo);
  }

  lemma FoundBelow(t: seq<byte>, ix: seq<byte>, n: nat, c: nat)
    requires IndexOk(t, ix, n)
    ensures c < GetLe24(ix, n - 1) || c < EntryCode(ix, 0) ==> c < Total(Runs(t, 0))
    ensures !(c < GetLe24(ix, n - 1)) ==> !InRuns(Runs(t, 0), 0, false, c)
    ensures Whole(t, 0)
  {
    if n > 1 {
      assert Reaches(t, 0, 0, false, EntryPos(ix, 0), EntryCode(ix, 0), false);
      ReachedSame(t, 0, 0, false, EntryPos(ix, 0), EntryCode(ix, 0), false, c);
    }
  }

  /** One run: either it decides, or the next does. */
  lemma RunDecides(rs: seq<nat>, code: nat, bit: bool, c: nat)
    requires code <= c < code + Total(rs)
    ensures rs != [] && (c < code + rs[0] ==> InRuns(rs, code, bit, c) == bit)
    ensures c >= code + rs[0] ==> InRuns(rs, code, bit, c) == InRuns(rs[1..], code + rs[0], !bit, c)
    ensures c >= code + rs[0] ==> c < code + rs[0] + Total(rs[1..])
  {
  }

  /** `lre_is_in_table`. Every table byte it reads is there. */
  method IsInTable(t: seq<byte>, ix: seq<byte>, n: nat, c: nat) returns (r: bool)
    requires IndexOk(t, ix, n)
    ensures r == InRuns(Runs(t, 0), 0, false, c)
    ensures forall pts :: Describes(t, pts) ==> r == Member(pts, c)
  {
    hide *;
    FoundBelow(t, ix, n, c);
    DescribedMember(t, c);
    var found, p: nat, code: nat := IndexPos(t, ix, n, c);
    if !found {
      return false;
    }
    ReachedSame(t, 0, 0, false, p, code, false, c);
    var bit := false;
    while true
      invariant p <= |t| && Whole(t, p) && code <= c < code + Total(Runs(t, p))
      invariant InRuns(Runs(t, p), code, bit, c) == InRuns(Runs(t, 0), 0, false, c)
      decreases |t| - p
    {
      ghost var rs := Runs(t, p);
      RunDecides(rs, code, bit, c);
      NotAtEnd(t, p);
      var b: int := t[p];
      if b < 64 {
        TwoRuns(t, p);
        code := code + b / 8 + 1;
        if c < code {
          return bit;
        }
        bit := !bit;
        rs := rs[1..];
        RunDecides(rs, code, bit, c);
        code := code + b % 8 + 1;
        p := p + 1;
      } else {
        OneRun(t, p);
        var len, size := LongItem(t, p);
        code := code + len;
        p := p + size;
      }
      if c < code {
        return bit;
      }
      bit := !bit;
    }
  }

  lemma NotAtEnd(t: seq<byte>, p: nat)
    requires p <= |t| && Whole(t, p) && Runs(t, p) != []
    ensures p < |t|
  {
  }

  lemma DescribedMember(t: seq<byte>, c: nat)
    requires Whole(t, 0)
    ensures forall pts :: Describes(t, pts) ==> Member(pts, c) == InRuns(Runs(t, 0), 0, false, c)
  {
  }
}
