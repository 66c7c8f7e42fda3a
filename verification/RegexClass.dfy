/** The byte code of a character class matches exactly the members of the class. */
module RegexClass {
  import opened Instructions
  import opened PointSets
  import opened RegexCode
  import opened RegexMachine

  /** Range `i` of the inclusive bounds contains `c`. */
  predicate Covers(b: seq<int>, i: int, c: int) {
    0 <= i && 2 * i + 1 < |b| && b[2 * i] <= c <= b[2 * i + 1]
  }

  ghost predicate SortedRanges(b: seq<int>) {
    && |b| % 2 == 0
    && (forall i, j :: 0 <= i < j < |b| ==> b[i] <= b[j])
    && (forall i, j :: 0 <= i < j < |b| && j % 2 == 0 ==> b[i] < b[j])
  }

  lemma BetweenRanges(b: seq<int>, c: int, lo: nat, i: int)
    requires SortedRanges(b) && 2 * lo <= |b|
    requires lo > 0 ==> b[2 * lo - 1] < c
    requires 2 * lo < |b| ==> c < b[2 * lo]
    ensures !Covers(b, i, c)
  {
    if 0 <= i < lo {
      assert b[2 * i + 1] <= b[2 * lo - 1];
    } else if lo <= i && 2 * i + 1 < |b| {
      assert b[2 * lo] <= b[2 * i];
    }
  }

  /** One turn of the search. */
  lemma RangeSearchStep(b: seq<int>, c: int, lo: nat, hi: int)
    requires lo <= hi && 2 * hi + 1 < |b| && b[0] <= c
    ensures var mid := (lo + hi) / 2;
      RangeSearch(b, c, lo, hi)
      == if c < b[2 * mid] then RangeSearch(b, c, lo, mid - 1)
         else if c > b[2 * mid + 1] then RangeSearch(b, c, mid + 1, hi) else Yes
  {
  }

  /** The binary search finds the range holding `c` if there is one, and its unsigned index never
      wraps because `c` is not below the first range. */
  lemma {:induction false} RangeSearchFinds(b: seq<int>, c: int, lo: nat, hi: int)
    requires lo - 1 <= hi && 2 * hi + 1 < |b| && SortedRanges(b) && |b| >= 2 && b[0] <= c
    requires lo > 0 ==> b[2 * lo - 1] < c
    requires 2 * hi + 2 < |b| ==> c < b[2 * hi + 2]
    ensures RangeSearch(b, c, lo, hi) == Verdict(exists i :: Covers(b, i, c))
    decreases hi - lo
  {
    hide SortedRanges;
    if hi < lo {
      forall i ensures !Covers(b, i, c) {
        BetweenRanges(b, c, lo, i);
      }
    } else {
      var mid := (lo + hi) / 2;
      RangeSearchStep(b, c, lo, hi);
      hide RangeSearch;
      if c < b[2 * mid] {
        RangeSearchFinds(b, c, lo, mid - 1);
      } else if c > b[2 * mid + 1] {
        RangeSearchFinds(b, c, mid + 1, hi);
      } else {
        assert Covers(b, mid, c);
      }
    }
  }

  /** In a canonical list, being a member is lying in one of the intervals. */
  lemma {:induction false} MemberInterval(p: seq<int>, c: int) returns (k: nat)
    requires Canonical(p)
    ensures k <= |p| && (forall i :: 0 <= i < k ==> p[i] <= c) && (forall i :: k <= i < |p| ==> c < p[i])
    ensures Member(p, c) <==> k % 2 == 1
  {
    k := 0;
    while k < |p| && p[k] <= c
      invariant 0 <= k <= |p| && forall i :: 0 <= i < k ==> p[i] <= c
    {
      k := k + 1;
    }
    CountPrefix(p, c, k);
  }

  ghost predicate ClassOk(p: seq<int>) {
    && Canonical(p) && |p| / 2 < 65535
    && forall i :: 0 <= i < |p| ==> 0 <= p[i] <= UINT32_MAX
  }

  /** `b` holds the ranges of `p` with inclusive ends, as far as `c` can tell. */
  ghost predicate SameRanges(p: seq<int>, b: seq<int>, c: int) {
    && |b| == |p| && |p| % 2 == 0
    && (forall i :: 0 <= i && 2 * i + 1 < |p| ==> b[2 * i] == p[2 * i])
    && (forall i :: 0 <= i && 2 * i + 1 < |p| ==> (c <= b[2 * i + 1] <==> c < p[2 * i + 1]))
  }

  lemma CoversMember(p: seq<int>, b: seq<int>, c: int)
    requires Canonical(p) && SameRanges(p, b, c)
    ensures (exists i :: Covers(b, i, c)) <==> Member(p, c)
  {
    var k := MemberInterval(p, c);
    forall i | Covers(b, i, c) ensures k == 2 * i + 1 {
      assert p[2 * i] <= c < p[2 * i + 1];
    }
    if k % 2 == 1 {
      var i := k / 2;
      assert p[2 * i] <= c < p[2 * i + 1];
      assert Covers(b, i, c);
    }
  }

  /** Outside the range of the list there are no members. */
  lemma NotMember(p: seq<int>, c: int)
    requires Canonical(p) && (p == [] || c < p[0] || p[|p| - 1] <= c)
    ensures !Member(p, c)
  {
    var k := MemberInterval(p, c);
  }

  lemma Bounds32Sorted(p: seq<int>)
    requires Canonical(p)
    ensures SortedRanges(Bounds32(p))
  {
    var b := Bounds32(p);
    forall i, j | 0 <= i < j < |b| ensures b[i] <= b[j] && (j % 2 == 0 ==> b[i] < b[j]) {
      assert p[i] < p[j];
    }
  }

  lemma Bounds16Sorted(p: seq<int>)
    requires Canonical(p) && |p| >= 2 && ClassInstr(p).Range?
    ensures SortedRanges(Bounds16(p))
  {
    var b, n := Bounds16(p), |p|;
    forall i, j | 0 <= i < j < n ensures b[i] <= b[j] && (j % 2 == 0 ==> b[i] < b[j]) {
      assert p[i] < p[j] && p[j] <= p[n - 1] && p[i] <= p[n - 2];
    }
  }

  lemma InsideMatches(p: seq<int>, b: seq<int>, c: int)
    requires Canonical(p) && SameRanges(p, b, c) && SortedRanges(b) && p != [] && b[0] <= c
    ensures RangeSearch(b, c, 0, |b| / 2 - 1) == Verdict(Member(p, c))
  {
    CoversMember(p, b, c);
    RangeSearchFinds(b, c, 0, |b| / 2 - 1);
  }

  lemma RangeMatches(p: seq<int>, c: int)
    requires Canonical(p) && |p| >= 2 && p[|p| - 1] <= UINT32_MAX && 0 <= c < UINT32_MAX && ClassInstr(p).Range?
    ensures RangeTest(Bounds16(p), c, true) == Verdict(Member(p, c))
  {
    hide RangeSearch;
    hide Member;
    var b, last := Bounds16(p), p[|p| - 1];
    if c < p[0] || last <= c {
      NotMember(p, c);
    } else if c >= 0xFFFF {
      var k := MemberInterval(p, c);
      assert last == UINT32_MAX && k == |p| - 1;
    } else {
      Bounds16Sorted(p);
      InsideMatches(p, b, c);
    }
  }

  lemma Range32Matches(p: seq<int>, c: int)
    requires Canonical(p) && |p| >= 2
    ensures RangeTest(Bounds32(p), c, false) == Verdict(Member(p, c))
  {
    hide RangeSearch;
    hide Member;
    var b := Bounds32(p);
    if c < b[0] || c > b[|b| - 1] {
      NotMember(p, c);
    } else {
      Bounds32Sorted(p);
      InsideMatches(p, b, c);
    }
  }

  /** For every class the parser can build and every code point, the instruction emitted for the
      class accepts exactly the members: also through the 16-bit form, where 0xFFFF is infinity. */
  lemma ClassInstrMatches(p: seq<int>, c: int)
    requires ClassOk(p) && 0 <= c < UINT32_MAX
    ensures CharTest(ClassInstr(p), c) == Verdict(Member(p, c))
  {
    if p != [] {
      if ClassInstr(p).Range? {
        RangeMatches(p, c);
      } else {
        Range32Matches(p, c);
      }
    }
  }

  lemma ClassInstrEncodable(p: seq<int>)
    requires ClassOk(p)
    ensures Encodable(ClassInstr(p))
  {
    if p != [] {
      forall k | 0 <= k < |p| - 1 ensures p[k] <= p[|p| - 2] && p[k] < p[|p| - 1] {
      }
      forall k | 0 <= k < |p| && k % 2 == 1 ensures 0 < p[k] {
        assert p[k - 1] < p[k];
      }
    }
  }
}
