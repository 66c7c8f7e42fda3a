/** `cr_sort_and_remove_overlap` (libunicode.c): intervals in any order, which may overlap, become the
    list of their union. */
module RangeSort {
  import opened PointSets
  import opened CharSets
  import opened Sorting
  import QuickSort

  type Interval = (int, int)

  predicate Holds(v: Interval, c: int) {
    v.0 <= c < v.1
  }

  /** The value is in one of the intervals. */
  ghost predicate InUnion(vs: seq<Interval>, c: int) {
    exists k :: 0 <= k < |vs| && Holds(vs[k], c)
  }

  predicate NonemptyAll(vs: seq<Interval>) {
    forall k :: 0 <= k < |vs| ==> vs[k].0 < vs[k].1
  }

  ghost predicate Forward(vs: seq<Interval>) {
    forall k :: 0 <= k < |vs| ==> vs[k].0 <= vs[k].1
  }

  /** The pairs of points, in order. */
  function Pairs(p: seq<int>): (vs: seq<Interval>)
    requires |p| % 2 == 0
    ensures |vs| == |p| / 2
  {
    seq(|p| / 2, k requires 0 <= k < |p| / 2 => (p[2 * k], p[2 * k + 1]))
  }

  function Flat(vs: seq<Interval>): (p: seq<int>)
    ensures |p| == 2 * |vs|
  {
    seq(2 * |vs|, k requires 0 <= k < 2 * |vs| => if k % 2 == 0 then vs[k / 2].0 else vs[k / 2].1)
  }

  /** `point_cmp`: by first point only. */
  function PointCmp(v: Interval, w: Interval): int {
    if v.0 > w.0 then 1 else if v.0 < w.0 then -1 else 0
  }

  lemma PointCmpPreorder()
    ensures Preorder(PointCmp)
  {
  }

  ghost predicate ByStart(vs: seq<Interval>) {
    forall i, j :: 0 <= i < j < |vs| ==> vs[i].0 <= vs[j].0
  }

  lemma SortedByStart(vs: seq<Interval>)
    requires Sorted(PointCmp, vs, 0, |vs|)
    ensures ByStart(vs)
  {
    forall i, j | 0 <= i < j < |vs| ensures vs[i].0 <= vs[j].0 {
      assert PointCmp(vs[i], vs[j]) <= 0;
    }
  }

  /** Sorting changes neither the union nor the kind of intervals. */
  lemma SameUnion(vs: seq<Interval>, ws: seq<Interval>)
    requires multiset(vs) == multiset(ws)
    ensures forall c :: InUnion(vs, c) == InUnion(ws, c)
    ensures NonemptyAll(vs) == NonemptyAll(ws) && Forward(vs) == Forward(ws)
  {
    SubUnion(vs, ws);
    SubUnion(ws, vs);
  }

  lemma SubUnion(vs: seq<Interval>, ws: seq<Interval>)
    requires multiset(vs) == multiset(ws)
    ensures forall c :: InUnion(vs, c) ==> InUnion(ws, c)
    ensures NonemptyAll(ws) ==> NonemptyAll(vs)
    ensures Forward(ws) ==> Forward(vs)
  {
    forall k | 0 <= k < |vs| ensures vs[k] in ws {
      assert vs[k] in multiset(vs);
    }
  }

  // ----- The merging loop -----

  /** `w` holds the union of the first `k` intervals and ends below the next. */
  ghost predicate Joined(vs: seq<Interval>, k: nat, w: seq<int>) {
    && k <= |vs| && |w| % 2 == 0 && Nondecreasing(w) && (NonemptyAll(vs) ==> Increasing(w))
    && (forall c :: Member(w, c) == InUnion(vs[..k], c))
    && (k < |vs| && w != [] ==> w[|w| - 1] < vs[k].0)
  }

  ghost predicate UnionIs(vs: seq<Interval>, k: nat, w: seq<int>, start: int, end: int, c: int)
    requires k <= |vs|
  {
    InUnion(vs[..k], c) == (Member(w, c) || start <= c < end)
  }

  /** The same with the interval from `start` to `end` still open. */
  ghost predicate Joining(vs: seq<Interval>, k: nat, w: seq<int>, start: int, end: int) {
    && k <= |vs| && |w| % 2 == 0 && Nondecreasing(w) && (NonemptyAll(vs) ==> Increasing(w) && start < end)
    && start <= end && (w != [] ==> w[|w| - 1] < start)
    && (forall c :: UnionIs(vs, k, w, start, end, c))
    && (forall m :: k <= m < |vs| ==> start <= vs[m].0)
  }

  lemma UnionMore(vs: seq<Interval>, k: nat, c: int)
    requires k < |vs|
    ensures InUnion(vs[..k + 1], c) == (InUnion(vs[..k], c) || Holds(vs[k], c))
  {
    if InUnion(vs[..k], c) {
      var m :| 0 <= m < k && Holds(vs[..k][m], c);
      assert Holds(vs[..k + 1][m], c);
    }
    if Holds(vs[k], c) {
      assert Holds(vs[..k + 1][k], c);
    }
  }

  lemma Open(vs: seq<Interval>, k: nat, w: seq<int>)
    requires ByStart(vs) && Forward(vs) && Joined(vs, k, w) && k < |vs|
    ensures Joining(vs, k + 1, w, vs[k].0, vs[k].1)
  {
    var n, v := k + 1, vs[k];
    forall c ensures UnionIs(vs, n, w, v.0, v.1, c) {
      UnionMore(vs, k, c);
    }
  }

  lemma Extend(vs: seq<Interval>, k: nat, w: seq<int>, start: int, end: int, e: int)
    requires Joining(vs, k, w, start, end) && k < |vs| && vs[k].0 <= end
    requires e == if vs[k].1 > end then vs[k].1 else end
    ensures Joining(vs, k + 1, w, start, e)
  {
    var n := k + 1;
    forall c ensures UnionIs(vs, n, w, start, e, c) {
      UnionMore(vs, k, c);
      assert UnionIs(vs, k, w, start, end, c);
    }
  }

  lemma Close(vs: seq<Interval>, k: nat, w: seq<int>, start: int, end: int)
    requires Joining(vs, k, w, start, end) && (k < |vs| ==> vs[k].0 > end)
    ensures Joined(vs, k, w + [start, end])
  {
    forall c ensures Member(w + [start, end], c) == InUnion(vs[..k], c) {
      MemberConcat(w, [start, end], c);
      MemberPair(start, end, c);
      assert UnionIs(vs, k, w, start, end, c);
      if c >= start {
        CountAll(w, c);
      }
    }
  }

  lemma JoinStart(vs: seq<Interval>)
    ensures Joined(vs, 0, [])
  {
  }

  lemma JoinEnd(p: seq<int>, vs: seq<Interval>, w: seq<int>)
    requires |p| % 2 == 0 && multiset(vs) == multiset(Pairs(p)) && Joined(vs, |vs|, w)
    ensures Nondecreasing(w) && |w| % 2 == 0 && (NonemptyAll(Pairs(p)) ==> Canonical(w))
    ensures forall c :: Member(w, c) == InUnion(Pairs(p), c)
  {
    SameUnion(vs, Pairs(p));
    assert vs[..|vs|] == vs;
  }

  lemma FlatAt(vs: seq<Interval>, k: nat)
    requires k < |vs|
    ensures Flat(vs)[2 * k] == vs[k].0 && Flat(vs)[2 * k + 1] == vs[k].1
  {
  }

  /** `rqsort` on the points, two at a time. */
  method SortPairs(p: seq<int>) returns (q: seq<int>, ghost vs: seq<Interval>)
    requires |p| % 2 == 0
    ensures ByStart(vs) && multiset(vs) == multiset(Pairs(p)) && q == Flat(vs) && |q| == |p|
  {
    var a := new Interval[|p| / 2](k requires 0 <= k < |p| / 2 => (p[2 * k], p[2 * k + 1]));
    assert a[..] == Pairs(p);
    PointCmpPreorder();
    QuickSort.Rqsort(a, PointCmp);
    vs := a[..];
    SortedByStart(vs);
    MultisetSize(vs, Pairs(p));
    q := Flat(a[..]);
  }

  lemma MultisetSize<T>(s: seq<T>, t: seq<T>)
    requires multiset(s) == multiset(t)
    ensures |s| == |t|
  {
    assert |multiset(s)| == |s| && |multiset(t)| == |t|;
  }

  /** The inner loop: takes in the intervals that begin at or below the end of the open one. */
  method TakeOverlapping(points: seq<int>, i0: nat, start: int, end0: int, ghost vs: seq<Interval>, ghost w: seq<int>)
      returns (i: nat, end: int)
    requires |points| == 2 * |vs| && i0 <= |points| && i0 % 2 == 0 && Joining(vs, i0 / 2, w, start, end0)
    requires forall m :: i0 <= m < |points| ==> points[m] == Flat(vs)[m]
    ensures i0 <= i <= |points| && i % 2 == 0 && Joining(vs, i / 2, w, start, end)
    ensures i < |points| ==> vs[i / 2].0 > end
  {
    hide *;
    i, end := i0, end0;
    while i < |points| && points[i] <= end
      invariant i0 <= i <= |points| && i % 2 == 0 && Joining(vs, i / 2, w, start, end)
      decreases |points| - i
    {
      FlatAt(vs, i / 2);
      Extend(vs, i / 2, w, start, end, if points[i + 1] > end then points[i + 1] else end);
      if points[i + 1] > end {
        end := points[i + 1];
      }
      i := i + 2;
    }
    if i < |points| {
      FlatAt(vs, i / 2);
    }
  }

  /** `cr_sort_and_remove_overlap`. */
  method SortAndRemoveOverlap(cr: CharRange)
    requires |cr.points| % 2 == 0 && Forward(Pairs(cr.points))
    modifies cr
    ensures forall c :: Member(cr.points, c) == InUnion(old(Pairs(cr.points)), c)
    ensures Nondecreasing(cr.points) && |cr.points| % 2 == 0
    ensures NonemptyAll(old(Pairs(cr.points))) ==> Canonical(cr.points)
  {
    hide *;
    ghost var p, vs, w := cr.points, [], [];
    var len := |cr.points|;
    cr.points, vs := SortPairs(cr.points);
    SameUnion(vs, Pairs(p));
    JoinStart(vs);
    var i: nat, j: nat := 0, 0;
    while i < len
      invariant |cr.points| == len == 2 * |vs| && j == |w| <= i <= len && i % 2 == 0 && j % 2 == 0
      invariant Joined(vs, i / 2, w)
      invariant forall m :: i <= m < len ==> cr.points[m] == Flat(vs)[m]
      invariant forall m :: 0 <= m < j ==> cr.points[m] == w[m]
      decreases len - i
    {
      var start, end := cr.points[i], cr.points[i + 1];
      FlatAt(vs, i / 2);
      Open(vs, i / 2, w);
      i := i + 2;
      i, end := TakeOverlapping(cr.points, i, start, end, vs, w);
      Close(vs, i / 2, w, start, end);
      w := w + [start, end];
      cr.points := cr.points[j := start];
      cr.points := cr.points[j + 1 := end];
      j := j + 2;
    }
    JoinEnd(p, vs, w);
    assert cr.points[..j] == w;
    cr.points := cr.points[..j];
  }
}
