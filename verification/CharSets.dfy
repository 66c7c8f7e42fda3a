/** The set algebra of libunicode.c on sorted point lists: the merge loop of `cr_op`, the in-place
    `cr_compress`, inversion and union. The canonical list of a set is unique, so set identities
    are equalities of lists. */
module CharSets {
  import opened PointSets

  ghost predicate Nondecreasing(p: seq<int>) {
    forall i, j :: 0 <= i < j < |p| ==> p[i] <= p[j]
  }

  lemma {:induction false} CountConcat(p: seq<int>, q: seq<int>, c: int)
    ensures CountUpTo(p + q, c) == CountUpTo(p, c) + CountUpTo(q, c)
  {
    if p == [] {
      assert p + q == q;
    } else {
      assert (p + q)[1..] == p[1..] + q;
      CountConcat(p[1..], q, c);
    }
  }

  lemma {:induction false} CountAll(p: seq<int>, c: int)
    requires forall i :: 0 <= i < |p| ==> p[i] <= c
    ensures CountUpTo(p, c) == |p|
  {
    if p != [] {
      CountAll(p[1..], c);
    }
  }

  lemma MemberConcat(p: seq<int>, q: seq<int>, c: int)
    ensures Member(p + q, c) == (Member(p, c) != Member(q, c))
  {
    CountConcat(p, q, c);
  }

  lemma MemberOne(x: int, c: int)
    ensures Member([x], c) == (x <= c)
  {
    assert CountUpTo([x][1..], c) == 0;
  }

  lemma MemberPair(x: int, y: int, c: int)
    ensures Member([x, y], c) == ((x <= c) != (y <= c))
  {
    assert [x, y] == [x] + [y];
    MemberConcat([x], [y], c);
    MemberOne(x, c);
    MemberOne(y, c);
  }

  /** The same set. */
  ghost predicate SameSet(p: seq<int>, q: seq<int>) {
    forall c :: Member(p, c) == Member(q, c)
  }

  lemma TailMember(p: seq<int>, c: int)
    requires p != [] && Increasing(p)
    ensures Member(p[1..], c) == if c < p[0] then Member(p, c) else !Member(p, c)
  {
    if c < p[0] {
      CountNone(p[1..], c);
    }
  }

  /** The first point is in the set, nothing below it is. */
  lemma HeadMember(p: seq<int>)
    requires p != [] && Increasing(p)
    ensures Member(p, p[0]) && forall c :: c < p[0] ==> !Member(p, c)
  {
    CountNone(p[1..], p[0]);
    forall c | c < p[0] ensures !Member(p, c) {
      CountNone(p, c);
    }
  }

  lemma BothNonempty(p: seq<int>, q: seq<int>)
    requires Increasing(p) && SameSet(p, q)
    ensures p != [] ==> q != []
  {
    if p != [] {
      HeadMember(p);
    }
  }

  lemma SameHead(p: seq<int>, q: seq<int>)
    requires Increasing(p) && Increasing(q) && SameSet(p, q) && p != [] && q != []
    ensures p[0] == q[0]
  {
    HeadMember(p);
    HeadMember(q);
    assert Member(p, p[0]) == Member(q, p[0]) && Member(p, q[0]) == Member(q, q[0]);
  }

  /** There is one increasing list for a set. */
  lemma {:induction false} CanonicalUnique(p: seq<int>, q: seq<int>)
    requires Increasing(p) && Increasing(q) && SameSet(p, q)
    ensures p == q
    decreases |p|
  {
    BothNonempty(p, q);
    BothNonempty(q, p);
    if p != [] {
      SameHead(p, q);
      forall c ensures Member(p[1..], c) == Member(q[1..], c) {
        TailMember(p, c);
        TailMember(q, c);
        assert Member(p, c) == Member(q, c);
      }
      CanonicalUnique(p[1..], q[1..]);
    }
  }

  ghost predicate InRange(p: seq<int>) {
    forall i :: 0 <= i < |p| ==> 0 <= p[i] <= UINT32_MAX
  }

  // ----- cr_compress -----

  /** `w` written, the points from `i` on still to be read. */
  ghost predicate Compressing(p: seq<int>, w: seq<int>, i: nat) {
    && i <= |p| && i % 2 == 0 && |w| % 2 == 0 && |w| <= i && Increasing(w)
    && (w != [] && i < |p| ==> w[|w| - 1] < p[i])
    && SameSet(w + p[i..], p)
  }

  lemma SkipEmpty(p: seq<int>, w: seq<int>, i: nat)
    requires Nondecreasing(p) && Compressing(p, w, i) && i + 1 < |p| && p[i] == p[i + 1]
    ensures Compressing(p, w, i + 2)
  {
    assert p[i..] == [p[i], p[i + 1]] + p[i + 2..];
    forall c ensures Member(w + p[i + 2..], c) == Member(p, c) {
      MemberPair(p[i], p[i + 1], c);
      MemberConcat([p[i], p[i + 1]], p[i + 2..], c);
      MemberConcat(w, p[i..], c);
      MemberConcat(w, p[i + 2..], c);
      assert Member(w + p[i..], c) == Member(p, c);
    }
  }

  /** The run of touching intervals from `i` to `j` is one interval. */
  ghost predicate Touching(p: seq<int>, i: nat, j: nat) {
    && i <= j && j + 1 < |p| && (j - i) % 2 == 0
    && SameSet(p[i..j + 2], [p[i], p[j + 1]])
  }

  lemma TouchMore(p: seq<int>, i: nat, j: nat)
    requires Touching(p, i, j) && j + 3 < |p| && p[j + 1] == p[j + 2]
    ensures Touching(p, i, j + 2)
  {
    var run, whole := p[i..j + 4], [p[i], p[j + 3]];
    assert run == p[i..j + 2] + [p[j + 2], p[j + 3]];
    forall c ensures Member(run, c) == Member(whole, c) {
      MemberConcat(p[i..j + 2], [p[j + 2], p[j + 3]], c);
      MemberPair(p[i], p[j + 1], c);
      MemberPair(p[j + 2], p[j + 3], c);
      MemberPair(p[i], p[j + 3], c);
      assert Member(p[i..j + 2], c) == Member([p[i], p[j + 1]], c);
    }
  }

  lemma CopyMember(p: seq<int>, w: seq<int>, i: nat, j: nat, c: int)
    requires Touching(p, i, j) && Member(w + p[i..], c) == Member(p, c)
    ensures Member(w + [p[i], p[j + 1]] + p[j + 2..], c) == Member(p, c)
  {
    hide Member, Increasing;
    var v := [p[i], p[j + 1]];
    assert p[i..] == p[i..j + 2] + p[j + 2..];
    assert Member(p[i..j + 2], c) == Member(v, c);
    MemberConcat(p[i..j + 2], p[j + 2..], c);
    MemberConcat(w, p[i..], c);
    MemberConcat(w + v, p[j + 2..], c);
    MemberConcat(w, v, c);
  }

  lemma CopyInterval(p: seq<int>, w: seq<int>, i: nat, j: nat)
    requires Nondecreasing(p) && Compressing(p, w, i) && Touching(p, i, j) && p[i] != p[i + 1]
    requires j + 3 < |p| ==> p[j + 1] != p[j + 2]
    requires |p| % 2 == 0
    ensures Compressing(p, w + [p[i], p[j + 1]], j + 2)
  {
    forall c ensures Member(w + [p[i], p[j + 1]] + p[j + 2..], c) == Member(p, c) {
      assert Member(w + p[i..], c) == Member(p, c);
      CopyMember(p, w, i, j, c);
    }
    assert p[i] < p[i + 1] <= p[j + 1];
    IncreasingPair(w, p[i], p[j + 1]);
  }

  lemma IncreasingPair(w: seq<int>, x: int, y: int)
    requires Increasing(w) && (w != [] ==> w[|w| - 1] < x) && x < y
    ensures Increasing(w + [x, y])
  {
  }

  lemma TouchStart(p: seq<int>, i: nat)
    requires i + 1 < |p|
    ensures Touching(p, i, i)
  {
    assert p[i..i + 2] == [p[i], p[i + 1]];
  }

  /** The same for lists that may not be sorted, of which less can be said. */
  ghost predicate Squeezing(p: seq<int>, w: seq<int>, i: nat) {
    && i <= |p| && i % 2 == 0 && |w| % 2 == 0 && |w| <= i && (InRange(p) ==> InRange(w))
    && (Nondecreasing(p) ==> Compressing(p, w, i))
  }

  lemma SqueezeSkip(p: seq<int>, w: seq<int>, i: nat)
    requires Squeezing(p, w, i) && i + 1 < |p| && p[i] == p[i + 1]
    ensures Squeezing(p, w, i + 2)
  {
    hide Compressing;
    if Nondecreasing(p) {
      SkipEmpty(p, w, i);
    }
  }

  lemma SqueezeCopy(p: seq<int>, w: seq<int>, i: nat, j: nat)
    requires Squeezing(p, w, i) && Touching(p, i, j) && p[i] != p[i + 1] && |p| % 2 == 0
    requires j + 3 < |p| ==> p[j + 1] != p[j + 2]
    ensures Squeezing(p, w + [p[i], p[j + 1]], j + 2)
  {
    hide Compressing;
    hide SameSet;
    if Nondecreasing(p) {
      CopyInterval(p, w, i, j);
    }
  }

  lemma SqueezeStart(p: seq<int>)
    ensures Squeezing(p, [], 0)
  {
    assert [] + p[0..] == p;
  }

  lemma SqueezeBounds(p: seq<int>, w: seq<int>, i: nat)
    requires Squeezing(p, w, i)
    ensures |w| <= i <= |p|
  {
  }

  lemma SqueezeEnd(p: seq<int>, w: seq<int>, i: nat)
    requires Squeezing(p, w, i) && i + 1 >= |p| && |p| % 2 == 0
    ensures |w| % 2 == 0 && (InRange(p) ==> InRange(w))
    ensures Nondecreasing(p) ==> Canonical(w) && SameSet(w, p)
  {
    assert w + p[i..] == w;
  }

  // ----- cr_op -----

  datatype SetOp = Union | Inter | Xor

  function Combine(op: SetOp, x: bool, y: bool): bool {
    match op
    case Union => x || y
    case Inter => x && y
    case Xor => x != y
  }

  /** `r` is `a op b` as a set of values. */
  ghost predicate IsOp(op: SetOp, a: seq<int>, b: seq<int>, r: seq<int>) {
    forall c :: Member(r, c) == Combine(op, Member(a, c), Member(b, c))
  }

  ghost predicate AllAtMost(p: seq<int>, v: int) {
    forall i :: 0 <= i < |p| ==> p[i] <= v
  }

  function AddIf(add: bool, p: seq<int>, v: int): seq<int> {
    if add then p + [v] else p
  }

  predicate Odd(p: seq<int>) {
    |p| % 2 == 1
  }

  lemma MemberAdded(add: bool, p: seq<int>, v: int, c: int)
    requires AllAtMost(p, v)
    ensures Member(AddIf(add, p, v), c) == if c < v then Member(p, c) else Odd(AddIf(add, p, v))
  {
    if c < v {
      MemberConcat(p, [v], c);
      MemberOne(v, c);
    } else {
      CountAll(AddIf(add, p, v), c);
    }
  }

  /** One more point `v`, at or above all before it, from `a`, from `b` or from both. */
  lemma MergeStep(op: SetOp, a: seq<int>, b: seq<int>, r: seq<int>, v: int, addA: bool, addB: bool, addR: bool)
    requires AllAtMost(a, v) && AllAtMost(b, v) && AllAtMost(r, v) && IsOp(op, a, b, r)
    requires Odd(AddIf(addR, r, v)) == Combine(op, Odd(AddIf(addA, a, v)), Odd(AddIf(addB, b, v)))
    ensures IsOp(op, AddIf(addA, a, v), AddIf(addB, b, v), AddIf(addR, r, v))
  {
    forall c
      ensures Member(AddIf(addR, r, v), c)
           == Combine(op, Member(AddIf(addA, a, v), c), Member(AddIf(addB, b, v), c))
    {
      MemberAdded(addA, a, v, c);
      MemberAdded(addB, b, v, c);
      MemberAdded(addR, r, v, c);
    }
  }

  /** The merge of `a` up to `ai` and `b` up to `bi` stands at `r`. */
  ghost predicate Merging(op: SetOp, a: seq<int>, ai: nat, b: seq<int>, bi: nat, r: seq<int>) {
    && ai <= |a| && bi <= |b|
    && IsOp(op, a[..ai], b[..bi], r)
    && Odd(r) == Combine(op, Odd(a[..ai]), Odd(b[..bi]))
    && Nondecreasing(r)
    && (ai < |a| ==> AllAtMost(r, a[ai]) && AllAtMost(b[..bi], a[ai]))
    && (bi < |b| ==> AllAtMost(r, b[bi]) && AllAtMost(a[..ai], b[bi]))
  }

  function Next(i: nat, step: bool): nat {
    if step then i + 1 else i
  }

  predicate NextOdd(i: nat, step: bool) {
    Next(i, step) % 2 == 1
  }

  /** Takes `v` from a list that has it next; `v` is at or above what was taken and at or below what is left. */
  lemma Take(a: seq<int>, ai: nat, v: int, add: bool)
    requires Nondecreasing(a) && ai <= |a| && (add ==> ai < |a| && a[ai] == v)
    ensures Next(ai, add) <= |a| && a[..Next(ai, add)] == AddIf(add, a[..ai], v)
    ensures Odd(AddIf(add, a[..ai], v)) == NextOdd(ai, add)
    ensures add ==> AllAtMost(a[..ai], v)
    ensures Next(ai, add) < |a| && (ai < |a| ==> v <= a[ai]) ==> v <= a[Next(ai, add)]
  {
  }

  lemma Raise(p: seq<int>, v: int, add: bool, x: int)
    requires AllAtMost(p, v) && v <= x
    ensures AllAtMost(AddIf(add, p, v), x)
  {
  }

  lemma AddLast(r: seq<int>, v: int, add: bool)
    requires Nondecreasing(r) && AllAtMost(r, v)
    ensures Nondecreasing(AddIf(add, r, v))
    ensures Odd(AddIf(add, r, v)) == (Odd(r) != add)
  {
  }

  lemma MergeParts(op: SetOp, a: seq<int>, ai: nat, b: seq<int>, bi: nat, r: seq<int>)
    requires Merging(op, a, ai, b, bi, r)
    ensures ai <= |a| && bi <= |b| && IsOp(op, a[..ai], b[..bi], r) && Nondecreasing(r)
    ensures Odd(r) == Combine(op, Odd(a[..ai]), Odd(b[..bi]))
    ensures ai < |a| ==> AllAtMost(r, a[ai]) && AllAtMost(b[..bi], a[ai])
    ensures bi < |b| ==> AllAtMost(r, b[bi]) && AllAtMost(a[..ai], b[bi])
  {
  }

  lemma MergeIntro(op: SetOp, a: seq<int>, ai: nat, b: seq<int>, bi: nat, r: seq<int>)
    requires ai <= |a| && bi <= |b| && IsOp(op, a[..ai], b[..bi], r) && Nondecreasing(r)
    requires Odd(r) == Combine(op, Odd(a[..ai]), Odd(b[..bi]))
    requires ai < |a| ==> AllAtMost(r, a[ai]) && AllAtMost(b[..bi], a[ai])
    requires bi < |b| ==> AllAtMost(r, b[bi]) && AllAtMost(a[..ai], b[bi])
    ensures Merging(op, a, ai, b, bi, r)
  {
  }

  /** Takes the least next point from each list that has it. */
  lemma MergeNext(op: SetOp, a: seq<int>, ai: nat, b: seq<int>, bi: nat, r: seq<int>, v: int,
      addA: bool, addB: bool, addR: bool)
    requires Nondecreasing(a) && Nondecreasing(b) && Merging(op, a, ai, b, bi, r)
    requires (addA ==> ai < |a| && a[ai] == v) && (addB ==> bi < |b| && b[bi] == v) && (addA || addB)
    requires (ai < |a| ==> v <= a[ai]) && (bi < |b| ==> v <= b[bi])
    requires addR == (Combine(op, NextOdd(ai, addA), NextOdd(bi, addB)) != Odd(r))
    ensures Merging(op, a, Next(ai, addA), b, Next(bi, addB), AddIf(addR, r, v))
  {
    hide *;
    MergeParts(op, a, ai, b, bi, r);
    Take(a, ai, v, addA);
    Take(b, bi, v, addB);
    AddLast(r, v, addR);
    MergeStep(op, a[..ai], b[..bi], r, v, addA, addB, addR);
    var ai2, bi2 := Next(ai, addA), Next(bi, addB);
    if ai2 < |a| {
      Raise(r, v, addR, a[ai2]);
      Raise(b[..bi], v, addB, a[ai2]);
    }
    if bi2 < |b| {
      Raise(r, v, addR, b[bi2]);
      Raise(a[..ai], v, addA, b[bi2]);
    }
    MergeIntro(op, a, ai2, b, bi2, AddIf(addR, r, v));
  }

  /** The points the loop takes are the least next ones. */
  lemma MergeTaken(op: SetOp, a: seq<int>, ai: nat, ai2: nat, b: seq<int>, bi: nat, bi2: nat, r: seq<int>, v: int,
      addR: bool)
    requires Nondecreasing(a) && Nondecreasing(b) && Merging(op, a, ai, b, bi, r)
    requires ai2 == if ai < |a| && a[ai] == v then ai + 1 else ai
    requires bi2 == if bi < |b| && b[bi] == v then bi + 1 else bi
    requires ai + bi < ai2 + bi2 && (ai < |a| ==> v <= a[ai]) && (bi < |b| ==> v <= b[bi])
    requires addR == (Combine(op, ai2 % 2 == 1, bi2 % 2 == 1) != (|r| % 2 == 1))
    ensures Merging(op, a, ai2, b, bi2, AddIf(addR, r, v)) && ai2 <= |a| && bi2 <= |b|
    ensures AddIf(addR, r, v) == if addR then r + [v] else r
  {
    MergeNext(op, a, ai, b, bi, r, v, ai < |a| && a[ai] == v, bi < |b| && b[bi] == v, addR);
  }

  /** The same for lists that may not be sorted. */
  ghost predicate Gathering(op: SetOp, a: seq<int>, ai: nat, b: seq<int>, bi: nat, r: seq<int>) {
    && ai <= |a| && bi <= |b| && Odd(r) == Combine(op, ai % 2 == 1, bi % 2 == 1)
    && (InRange(a) && InRange(b) ==> InRange(r))
    && (Nondecreasing(a) && Nondecreasing(b) ==> Merging(op, a, ai, b, bi, r))
  }

  lemma GatherStart(op: SetOp, a: seq<int>, b: seq<int>)
    ensures Gathering(op, a, 0, b, 0, [])
  {
  }

  lemma GatherTaken(op: SetOp, a: seq<int>, ai: nat, ai2: nat, b: seq<int>, bi: nat, bi2: nat, r: seq<int>, v: int,
      addR: bool)
    requires Gathering(op, a, ai, b, bi, r)
    requires ai2 == if ai < |a| && a[ai] == v then ai + 1 else ai
    requires bi2 == if bi < |b| && b[bi] == v then bi + 1 else bi
    requires ai + bi < ai2 + bi2 && (ai < |a| ==> v <= a[ai]) && (bi < |b| ==> v <= b[bi])
    requires addR == (Combine(op, ai2 % 2 == 1, bi2 % 2 == 1) != (|r| % 2 == 1))
    ensures Gathering(op, a, ai2, b, bi2, if addR then r + [v] else r)
  {
    hide Merging;
    hide Combine;
    hide AddIf;
    if Nondecreasing(a) && Nondecreasing(b) {
      MergeTaken(op, a, ai, ai2, b, bi, bi2, r, v, addR);
    }
  }

  lemma GatherEnd(op: SetOp, a: seq<int>, b: seq<int>, r: seq<int>)
    requires Gathering(op, a, |a|, b, |b|, r) && |a| % 2 == 0 && |b| % 2 == 0
    ensures |r| % 2 == 0 && (InRange(a) && InRange(b) ==> InRange(r))
    ensures Nondecreasing(a) && Nondecreasing(b) ==> Nondecreasing(r) && IsOp(op, a, b, r)
  {
    assert a[..|a|] == a && b[..|b|] == b;
  }

  lemma SameOp(op: SetOp, a: seq<int>, b: seq<int>, r: seq<int>, q: seq<int>)
    requires IsOp(op, a, b, r) && SameSet(q, r)
    ensures IsOp(op, a, b, q)
  {
  }

  // ----- cr_invert -----

  /** `q` is the canonical list of the values below UINT32_MAX that are not in `p`. */
  ghost predicate Complement(p: seq<int>, q: seq<int>) {
    Canonical(q) && forall c :: Member(q, c) == (0 <= c < UINT32_MAX && !Member(p, c))
  }

  lemma Enclose(p: seq<int>)
    requires InRange(p) && |p| % 2 == 0 && Nondecreasing(p)
    ensures Nondecreasing([0] + p + [UINT32_MAX])
    ensures forall c :: Member([0] + p + [UINT32_MAX], c) == (0 <= c < UINT32_MAX && !Member(p, c))
  {
    forall c ensures Member([0] + p + [UINT32_MAX], c) == (0 <= c < UINT32_MAX && !Member(p, c)) {
      MemberConcat([0] + p, [UINT32_MAX], c);
      MemberConcat([0], p, c);
      MemberOne(0, c);
      MemberOne(UINT32_MAX, c);
      InRangeMember(p, c);
    }
  }

  lemma InRangeMember(p: seq<int>, c: int)
    requires InRange(p) && |p| % 2 == 0
    ensures Member(p, c) ==> 0 <= c < UINT32_MAX
  {
    if c < 0 {
      CountNone(p, c);
    } else if c >= UINT32_MAX {
      CountAll(p, c);
    }
  }

  lemma SameComplement(p: seq<int>, e: seq<int>, q: seq<int>)
    requires forall c :: Member(e, c) == (0 <= c < UINT32_MAX && !Member(p, c))
    requires Canonical(q) && SameSet(q, e)
    ensures Complement(p, q)
  {
  }

  /** Inverting twice gives the list one started from. */
  lemma InvertTwice(p: seq<int>, q: seq<int>, r: seq<int>)
    requires Canonical(p) && InRange(p) && Complement(p, q) && Complement(q, r)
    ensures r == p
  {
    forall c ensures Member(r, c) == Member(p, c) {
      InRangeMember(p, c);
      assert Member(q, c) == (0 <= c < UINT32_MAX && !Member(p, c));
    }
    CanonicalUnique(r, p);
  }

  function Dual(op: SetOp): SetOp
    requires op != Xor
  {
    if op == Union then Inter else Union
  }

  /** De Morgan, as an equality of lists: the inverted union is the intersection of the inverted, and so for
      the inverted intersection. */
  lemma DeMorgan(op: SetOp, p: seq<int>, q: seq<int>, r: seq<int>,
      notP: seq<int>, notQ: seq<int>, notR: seq<int>, dual: seq<int>)
    requires op != Xor && IsOp(op, p, q, r)
    requires Complement(p, notP) && Complement(q, notQ) && Complement(r, notR)
    requires Canonical(dual) && IsOp(Dual(op), notP, notQ, dual)
    ensures notR == dual
  {
    forall c ensures Member(notR, c) == Member(dual, c) {
      assert Member(notR, c) == (0 <= c < UINT32_MAX && !Member(r, c));
      assert Member(notP, c) == (0 <= c < UINT32_MAX && !Member(p, c));
      assert Member(notQ, c) == (0 <= c < UINT32_MAX && !Member(q, c));
    }
    CanonicalUnique(notR, dual);
  }

  /** The symmetric difference and the intersection are disjoint, and together they are the union. */
  lemma XorLaw(p: seq<int>, q: seq<int>, x: seq<int>, i: seq<int>, u: seq<int>, both: seq<int>, all: seq<int>)
    requires IsOp(Xor, p, q, x) && IsOp(Inter, p, q, i) && IsOp(Union, p, q, u) && Canonical(u)
    requires IsOp(Inter, x, i, both) && Canonical(both) && IsOp(Union, x, i, all) && Canonical(all)
    ensures both == [] && all == u
  {
    forall c ensures Member(both, c) == Member([], c) && Member(all, c) == Member(u, c) {
      assert Member(x, c) == Combine(Xor, Member(p, c), Member(q, c));
      assert Member(i, c) == Combine(Inter, Member(p, c), Member(q, c));
      assert Member(u, c) == Combine(Union, Member(p, c), Member(q, c));
    }
    CanonicalUnique(both, []);
    CanonicalUnique(all, u);
  }

  /** The three operations on two intervals that overlap. */
  lemma OpLaw(c: int)
    ensures var a, b := [10, 30], [20, 40];
      && Combine(Union, Member(a, c), Member(b, c)) == Member([10, 40], c)
      && Combine(Inter, Member(a, c), Member(b, c)) == Member([20, 30], c)
      && Combine(Xor, Member(a, c), Member(b, c)) == Member([10, 20, 30, 40], c)
  {
    MemberPair(10, 30, c);
    MemberPair(20, 40, c);
    MemberPair(10, 40, c);
    MemberPair(20, 30, c);
    MemberPair(10, 20, c);
    MemberPair(30, 40, c);
    assert [10, 20, 30, 40] == [10, 20] + [30, 40];
    MemberConcat([10, 20], [30, 40], c);
    hide Member;
  }

  /** The complement of nothing is everything below the greatest 32-bit value. */
  lemma NothingInverted(q: seq<int>)
    requires Complement([], q)
    ensures q == [0, 0xFFFF_FFFF]
  {
    forall c ensures Member(q, c) == Member([0, 0xFFFF_FFFF], c) {
      MemberPair(0, 0xFFFF_FFFF, c);
      assert !Member([], c);
    }
    CanonicalUnique(q, [0, 0xFFFF_FFFF]);
  }

  /** For the value `c`, `q` is `p` with the values `c1` to `c2`. */
  ghost predicate WithInterval(p: seq<int>, c1: int, c2: int, q: seq<int>, c: int) {
    Member(q, c) == (Member(p, c) || c1 <= c <= c2)
  }

  class CharRange {
    var points: seq<int>

    constructor ()
      ensures points == []
    {
      points := [];
    }

    /** `cr_add_point`. */
    method AddPoint(v: int)
      modifies this
      ensures points == old(points) + [v]
    {
      points := points + [v];
    }

    /** `cr_add_interval`. */
    method AddInterval(c1: int, c2: int)
      modifies this
      ensures points == old(points) + [c1, c2]
    {
      points := points + [c1, c2];
    }

    /** `cr_compress`: merges touching intervals and drops empty ones, writing behind its own reading position. What
        is not sorted only stays in range. */
    method Compress()
      requires |points| % 2 == 0
      modifies this
      ensures Nondecreasing(old(points)) ==> Canonical(points) && SameSet(points, old(points))
      ensures |points| % 2 == 0 && (InRange(old(points)) ==> InRange(points))
    {
      hide *;
      ghost var p, w := points, [];
      var len := |points|;
      var i: nat, k: nat := 0, 0;
      SqueezeStart(p);
      while i + 1 < len
        invariant |points| == len == |p| && k == |w| <= i <= len
        invariant Squeezing(p, w, i)
        invariant forall m :: i <= m < len ==> points[m] == p[m]
        invariant forall m :: 0 <= m < k ==> points[m] == w[m]
        decreases len - i
      {
        if points[i] == points[i + 1] {
          SqueezeSkip(p, w, i);
          SqueezeBounds(p, w, i + 2);
          i := i + 2;
        } else {
          var j := i;
          TouchStart(p, i);
          while j + 3 < len && points[j + 1] == points[j + 2]
            invariant i <= j && j + 1 < len && Touching(p, i, j)
            modifies {}
            decreases len - j
          {
            TouchMore(p, i, j);
            j := j + 2;
          }
          SqueezeCopy(p, w, i, j);
          w := w + [p[i], p[j + 1]];
          SqueezeBounds(p, w, j + 2);
          points := points[k := points[i]];
          points := points[k + 1 := points[j + 1]];
          k := k + 2;
          i := j + 2;
        }
      }
      SqueezeEnd(p, w, i);
      assert points[..k] == w;
      points := points[..k];
    }

    /** `cr_op` into an empty range. */
    method Op(a: seq<int>, b: seq<int>, op: SetOp)
      requires points == [] && |a| % 2 == 0 && |b| % 2 == 0
      modifies this
      ensures Nondecreasing(a) && Nondecreasing(b) ==> Canonical(points) && IsOp(op, a, b, points)
      ensures |points| % 2 == 0 && (InRange(a) && InRange(b) ==> InRange(points))
    {
      hide *;
      var ai: nat, bi: nat := 0, 0;
      GatherStart(op, a, b);
      while ai < |a| || bi < |b|
        invariant ai <= |a| && bi <= |b|
        invariant Gathering(op, a, ai, b, bi, points)
        decreases |a| + |b| - ai - bi
      {
        var v;
        ghost var ai0, bi0 := ai, bi;
        if ai < |a| && (bi >= |b| || a[ai] < b[bi]) {
          v := a[ai];
          ai := ai + 1;
        } else if ai < |a| && a[ai] == b[bi] {
          v := a[ai];
          ai := ai + 1;
          bi := bi + 1;
        } else {
          v := b[bi];
          bi := bi + 1;
        }
        var isIn := Combine(op, ai % 2 == 1, bi % 2 == 1);
        var addR := isIn != (|points| % 2 == 1);
        GatherTaken(op, a, ai0, ai, b, bi0, bi, points, v, addR);
        if addR {
          AddPoint(v);
        }
      }
      GatherEnd(op, a, b, points);
      ghost var r := points;
      Compress();
      if Nondecreasing(a) && Nondecreasing(b) {
        SameOp(op, a, b, r, points);
      }
    }

    /** `cr_union1`. */
    method Union1(b: seq<int>)
      requires |points| % 2 == 0 && |b| % 2 == 0
      modifies this
      ensures Nondecreasing(old(points)) && Nondecreasing(b)
              ==> Canonical(points) && IsOp(Union, old(points), b, points)
      ensures |points| % 2 == 0 && (InRange(old(points)) && InRange(b) ==> InRange(points))
    {
      var a := points;
      points := [];
      Op(a, b, Union);
    }

    /** `cr_union_interval`: the values `c1` to `c2`, but not up to the greatest one, as the end point wraps. */
    method UnionInterval(c1: int, c2: int)
      requires Nondecreasing(points) && |points| % 2 == 0 && InRange(points) && 0 <= c1 <= c2 <= UINT32_MAX
      modifies this
      ensures c2 < UINT32_MAX ==> Canonical(points) && forall c :: WithInterval(old(points), c1, c2, points, c)
      ensures c2 == UINT32_MAX ==> !WithInterval(old(points), c1, c2, points, UINT32_MAX)
    {
      var b := [c1, (c2 + 1) % (UINT32_MAX + 1)];
      if c2 < UINT32_MAX {
        forall c ensures Member(b, c) == (c1 <= c <= c2) {
          MemberPair(c1, c2 + 1, c);
        }
      }
      Union1(b);
      InRangeMember(points, UINT32_MAX);
    }

    /** `cr_invert`. */
    method Invert()
      requires Nondecreasing(points) && |points| % 2 == 0 && InRange(points)
      modifies this
      ensures Complement(old(points), points)
    {
      ghost var p := points;
      Enclose(points);
      points := [0] + points + [UINT32_MAX];
      ghost var e := points;
      Compress();
      SameComplement(p, e, points);
    }
  }
}
