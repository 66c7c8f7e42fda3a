/** `rqsort` (cutils.h): three-way quicksort with its own stack of 50 entries, which gives way to heap
    sort at depth 50 and to insertion sort on short stretches. */
module QuickSort {
  import opened Sorting

  // ----- med3 -----

  predicate Between<T>(cmp: (T, T) -> int, x: T, m: T, y: T) {
    (cmp(x, m) <= 0 && cmp(m, y) <= 0) || (cmp(y, m) <= 0 && cmp(m, x) <= 0)
  }

  /** The median of three. */
  function Med3<T(!new)>(cmp: (T, T) -> int, a: T, b: T, c: T): (m: T)
    ensures Preorder(cmp) ==> (m == a && Between(cmp, b, m, c)) || (m == b && Between(cmp, a, m, c))
                              || (m == c && Between(cmp, a, m, b))
  {
    MedianCases(cmp, a, b, c);
    if cmp(a, b) < 0 then
      if cmp(b, c) < 0 then b else if cmp(a, c) < 0 then c else a
    else
      if cmp(b, c) > 0 then b else if cmp(a, c) < 0 then a else c
  }

  lemma MedianCases<T(!new)>(cmp: (T, T) -> int, a: T, b: T, c: T)
    ensures Preorder(cmp) ==> (cmp(a, b) <= 0 <==> cmp(b, a) >= 0) && (cmp(b, c) <= 0 <==> cmp(c, b) >= 0)
                              && (cmp(a, c) <= 0 <==> cmp(c, a) >= 0) && (cmp(a, b) >= 0 <==> cmp(b, a) <= 0)
                              && (cmp(b, c) >= 0 <==> cmp(c, b) <= 0) && (cmp(a, c) >= 0 <==> cmp(c, a) <= 0)
  {
  }

  // ----- Partition -----

  function Sign(c: int): int {
    if c < 0 then -1 else if c == 0 then 0 else 1
  }

  /** From `x` to `y` the elements all compare with `p` in the same way. */
  ghost predicate Are<T(!new)>(cmp: (T, T) -> int, p: T, s: seq<T>, x: nat, y: nat, sign: int) {
    x <= y <= |s| && forall k :: x <= k < y ==> Sign(cmp(p, s[k])) == sign
  }

  /** Equal, smaller, unknown, greater, equal: the loop stands between `i` and `j`. */
  ghost predicate Parting<T(!new)>(cmp: (T, T) -> int, s: seq<T>, lo: nat, lt: nat, i: nat, j: nat, gt: nat, hi: nat) {
    && lo < lt <= i <= j <= gt <= hi <= |s|
    && Are(cmp, s[lo], s, lo, lt, 0) && Are(cmp, s[lo], s, lt, i, 1)
    && Are(cmp, s[lo], s, j, gt, -1) && Are(cmp, s[lo], s, gt, hi, 0)
  }

  lemma PartingBounds<T(!new)>(cmp: (T, T) -> int, s: seq<T>, lo: nat, lt: nat, i: nat, j: nat, gt: nat, hi: nat)
    requires Parting(cmp, s, lo, lt, i, j, gt, hi)
    ensures lo < lt <= i <= j <= gt <= hi <= |s|
  {
  }

  lemma PartingStart<T(!new)>(cmp: (T, T) -> int, s: seq<T>, lo: nat, hi: nat)
    requires Preorder(cmp) && lo < hi <= |s|
    ensures Parting(cmp, s, lo, lo + 1, lo + 1, hi, hi, hi)
  {
    Reflexive(cmp, s[lo]);
  }

  lemma LowEqual<T(!new)>(cmp: (T, T) -> int, s: seq<T>, lo: nat, lt: nat, i: nat, j: nat, gt: nat, hi: nat)
    requires Parting(cmp, s, lo, lt, i, j, gt, hi) && i < j && cmp(s[lo], s[i]) == 0
    ensures Parting(cmp, Swapped(s, lt, i), lo, lt + 1, i + 1, j, gt, hi)
  {
  }

  lemma LowLess<T(!new)>(cmp: (T, T) -> int, s: seq<T>, lo: nat, lt: nat, i: nat, j: nat, gt: nat, hi: nat)
    requires Parting(cmp, s, lo, lt, i, j, gt, hi) && i < j && cmp(s[lo], s[i]) > 0
    ensures Parting(cmp, s, lo, lt, i + 1, j, gt, hi)
  {
  }

  lemma HighEqual<T(!new)>(cmp: (T, T) -> int, s: seq<T>, lo: nat, lt: nat, i: nat, j: nat, gt: nat, hi: nat)
    requires Parting(cmp, s, lo, lt, i, j + 1, gt, hi) && i < j && cmp(s[lo], s[j]) == 0
    ensures Parting(cmp, Swapped(s, gt - 1, j), lo, lt, i, j, gt - 1, hi)
    ensures Swapped(s, gt - 1, j)[lo] == s[lo] && Swapped(s, gt - 1, j)[i] == s[i]
  {
  }

  lemma HighGreater<T(!new)>(cmp: (T, T) -> int, s: seq<T>, lo: nat, lt: nat, i: nat, j: nat, gt: nat, hi: nat)
    requires Parting(cmp, s, lo, lt, i, j + 1, gt, hi) && i <= j && cmp(s[lo], s[j]) < 0
    ensures Parting(cmp, s, lo, lt, i, j, gt, hi)
  {
  }

  lemma Crossed<T(!new)>(cmp: (T, T) -> int, s: seq<T>, lo: nat, lt: nat, i: nat, j: nat, gt: nat, hi: nat)
    requires Parting(cmp, s, lo, lt, i, j + 1, gt, hi) && i < j && cmp(s[lo], s[i]) < 0 && cmp(s[lo], s[j]) > 0
    ensures Parting(cmp, Swapped(s, i, j), lo, lt, i + 1, j, gt, hi)
  {
  }

  // ----- Moving the equal elements to the middle -----

  function Exchanged(x: nat, y: nat, n: nat, k: nat): nat
    requires x + n <= y
  {
    if x <= k < x + n then k + (y - x) else if y <= k < y + n then k - (y - x) else k
  }

  /** `s` with the `n` elements at `x` and the `n` at `y` exchanged. */
  function BlockSwapped<T>(s: seq<T>, x: nat, y: nat, n: nat): (t: seq<T>)
    requires x + n <= y && y + n <= |s|
    ensures |t| == |s|
  {
    seq(|s|, k requires 0 <= k < |s| => s[Exchanged(x, y, n, k)])
  }

  lemma BlockNext<T>(s: seq<T>, x: nat, y: nat, n: nat)
    requires x + n < y && y + n < |s|
    ensures Swapped(BlockSwapped(s, x, y, n), x + n, y + n) == BlockSwapped(s, x, y, n + 1)
  {
  }

  lemma {:induction false} BlockRearranged<T>(s: seq<T>, x: nat, y: nat, n: nat, h: nat)
    requires x + n <= y && y + n <= h <= |s|
    ensures Rearranged(s, BlockSwapped(s, x, y, n), x, h)
  {
    hide *;
    if n == 0 {
      NoBlock(s, x, y);
      Unmoved(s, x, h);
    } else {
      BlockRearranged(s, x, y, n - 1, h);
      BlockNext(s, x, y, n - 1);
      SwapMore(s, BlockSwapped(s, x, y, n - 1), x + n - 1, y + n - 1, x, h);
    }
  }

  lemma NoBlock<T>(s: seq<T>, x: nat, y: nat)
    requires x <= y <= |s|
    ensures BlockSwapped(s, x, y, 0) == s
  {
  }

  /** `swap_block`. */
  method SwapBlock<T>(a: array<T>, x: nat, y: nat, n: nat)
    requires x + n <= y && y + n <= a.Length
    modifies a
    ensures a[..] == BlockSwapped(old(a[..]), x, y, n)
  {
    hide *;
    ghost var s := a[..];
    NoBlock(s, x, y);
    var i := 0;
    while i < n
      invariant i <= n
      invariant a[..] == BlockSwapped(s, x, y, i)
    {
      BlockNext(s, x, y, i);
      Swap(a, x + i, y + i);
      i := i + 1;
    }
  }

  function Least(x: nat, y: nat): nat {
    if x < y then x else y
  }

  lemma Turned<T(!new)>(cmp: (T, T) -> int, p: T, s: seq<T>, x: nat, m: nat, y: nat, n: nat, c: int, d: int)
    requires Are(cmp, p, s, x, m, c) && Are(cmp, p, s, m, y, d) && n == Least(m - x, y - m)
    ensures x + n <= y - n && y <= |s|
    ensures Are(cmp, p, BlockSwapped(s, x, y - n, n), x, x + (y - m), d)
    ensures Are(cmp, p, BlockSwapped(s, x, y - n, n), x + (y - m), y, c)
    ensures Rearranged(s, BlockSwapped(s, x, y - n, n), x, y)
  {
    BlockRearranged(s, x, y - n, n, y);
  }

  lemma KeptOutside<T(!new)>(cmp: (T, T) -> int, p: T, s: seq<T>, t: seq<T>, x: nat, y: nat, l: nat, h: nat, c: int)
    requires Rearranged(s, t, x, y) && Are(cmp, p, s, l, h, c) && (h <= x || y <= l)
    ensures Are(cmp, p, t, l, h, c)
  {
  }

  /** Smaller, equal, greater. */
  ghost predicate ThreeParts<T(!new)>(cmp: (T, T) -> int, p: T, s: seq<T>, lo: nat, m: nat, g: nat, hi: nat) {
    lo <= m < g <= hi && Are(cmp, p, s, lo, m, 1) && Are(cmp, p, s, m, g, 0) && Are(cmp, p, s, g, hi, -1)
  }

  /** Turns the two neighbouring blocks from `x` to `m` and from `m` to `y` by swapping the shorter one's length. */
  method Turn<T(!new)>(a: array<T>, x: nat, m: nat, y: nat, cmp: (T, T) -> int, ghost p: T, ghost c: int, ghost d: int)
    requires Are(cmp, p, a[..], x, m, c) && Are(cmp, p, a[..], m, y, d)
    modifies a
    ensures Are(cmp, p, a[..], x, x + (y - m), d) && Are(cmp, p, a[..], x + (y - m), y, c)
    ensures Rearranged(old(a[..]), a[..], x, y)
  {
    hide Rearranged;
    ghost var s := a[..];
    var span := Least(m - x, y - m);
    Turned(cmp, p, s, x, m, y, span, c, d);
    hide *;
    SwapBlock(a, x, y - span, span);
  }

  lemma PartsKept<T(!new)>(cmp: (T, T) -> int, p: T, s: seq<T>, lo: nat, lt: nat, i: nat, gt: nat, hi: nat)
    requires Parting(cmp, s, lo, lt, i, i, gt, hi) && p == s[lo]
    ensures lo < lt <= i <= gt <= hi <= |s|
    ensures Are(cmp, p, s, lo, lt, 0) && Are(cmp, p, s, lt, i, 1)
    ensures Are(cmp, p, s, i, gt, -1) && Are(cmp, p, s, gt, hi, 0)
  {
  }

  lemma MakeThree<T(!new)>(cmp: (T, T) -> int, p: T, s: seq<T>, lo: nat, m: nat, i: nat, g: nat, hi: nat)
    requires lo <= m < i <= g <= hi
    requires Are(cmp, p, s, lo, m, 1) && Are(cmp, p, s, m, i, 0) && Are(cmp, p, s, i, g, 0) && Are(cmp, p, s, g, hi, -1)
    ensures ThreeParts(cmp, p, s, lo, m, g, hi)
  {
  }

  /** The end of a round: moves the equal elements to the middle. */
  method Gather<T(!new)>(a: array<T>, lo: nat, lt: nat, i: nat, gt: nat, hi: nat, cmp: (T, T) -> int)
      returns (m: nat, g: nat)
    requires Parting(cmp, a[..], lo, lt, i, i, gt, hi)
    modifies a
    ensures lo < a.Length && lo <= m < g <= hi <= a.Length && ThreeParts(cmp, old(a[lo]), a[..], lo, m, g, hi)
    ensures Rearranged(old(a[..]), a[..], lo, hi)
  {
    hide *;
    ghost var s := a[..];
    PartingBounds(cmp, s, lo, lt, i, i, gt, hi);
    ghost var p := s[lo];
    PartsKept(cmp, p, s, lo, lt, i, gt, hi);
    Turn(a, lo, lt, i, cmp, p, 0, 1);
    ghost var t := a[..];
    m := lo + (i - lt);
    KeptOutside(cmp, p, s, t, lo, i, i, gt, -1);
    KeptOutside(cmp, p, s, t, lo, i, gt, hi, 0);
    Turn(a, i, gt, hi, cmp, p, -1, 0);
    g := i + (hi - gt);
    KeptOutside(cmp, p, t, a[..], i, hi, lo, m, 1);
    KeptOutside(cmp, p, t, a[..], i, hi, m, i, 0);
    MakeThree(cmp, p, a[..], lo, m, i, g, hi);
    RearrangedParts(s, t, lo, i);
    Widen(s, t, lo, i, lo, hi);
    Widen(t, a[..], i, hi, lo, hi);
    RearrangedTwice(s, t, a[..], lo, hi);
  }

  /** The scan from the left: stops at a greater element or at `j`. */
  method ScanUp<T(!new)>(a: array<T>, lo: nat, lt0: nat, i0: nat, j: nat, ghost gt: nat, ghost hi: nat,
      cmp: (T, T) -> int) returns (lt: nat, i: nat)
    requires Parting(cmp, a[..], lo, lt0, i0, j, gt, hi)
    modifies a
    ensures Parting(cmp, a[..], lo, lt, i, j, gt, hi) && lo < i0 <= i <= j <= a.Length
    ensures i < j ==> cmp(a[lo], a[i]) < 0
    ensures Rearranged(old(a[..]), a[..], lo, hi)
  {
    hide *;
    ghost var s0 := a[..];
    lt, i := lt0, i0;
    PartingBounds(cmp, s0, lo, lt, i, j, gt, hi);
    Unmoved(s0, lo, hi);
    while i < j && cmp(a[lo], a[i]) >= 0
      invariant lo < lt <= i <= j <= gt <= hi <= a.Length && i0 <= i
      invariant Parting(cmp, a[..], lo, lt, i, j, gt, hi) && Rearranged(s0, a[..], lo, hi)
      decreases j - i
    {
      if cmp(a[lo], a[i]) == 0 {
        ghost var s := a[..];
        LowEqual(cmp, s, lo, lt, i, j, gt, hi);
        SwapMore(s0, s, lt, i, lo, hi);
        Swap(a, lt, i);
        lt := lt + 1;
      } else {
        LowLess(cmp, a[..], lo, lt, i, j, gt, hi);
      }
      i := i + 1;
    }
  }

  /** The scan from the right, which starts below `j0`: stops at a smaller element or at `i`. */
  method ScanDown<T(!new)>(a: array<T>, lo: nat, ghost lt: nat, i: nat, j0: nat, gt0: nat, ghost hi: nat,
      cmp: (T, T) -> int) returns (j: int, gt: nat)
    requires Parting(cmp, a[..], lo, lt, i, j0, gt0, hi)
    requires i < j0 ==> cmp(a[lo], a[i]) < 0
    modifies a
    ensures i - 1 <= j < j0 && gt <= a.Length
    ensures i <= j < a.Length ==> lo < i < a.Length && cmp(a[lo], a[i]) < 0
    ensures i < j ==> lo < j < a.Length && cmp(a[lo], a[j]) > 0 && Parting(cmp, a[..], lo, lt, i, j + 1, gt, hi)
    ensures i >= j ==> Parting(cmp, a[..], lo, lt, i, i, gt, hi)
    ensures Rearranged(old(a[..]), a[..], lo, hi)
  {
    hide *;
    ghost var s0 := a[..];
    gt := gt0;
    PartingBounds(cmp, s0, lo, lt, i, j0, gt, hi);
    Unmoved(s0, lo, hi);
    j := j0 - 1;
    while i < j && cmp(a[lo], a[j]) <= 0
      invariant i - 1 <= j < j0 && lo < lt <= i && j + 1 <= gt <= hi <= a.Length
      invariant i <= j ==> cmp(a[lo], a[i]) < 0
      invariant Parting(cmp, a[..], lo, lt, i, j + 1, gt, hi) && Rearranged(s0, a[..], lo, hi)
      decreases j - i
    {
      if cmp(a[lo], a[j]) == 0 {
        ghost var s := a[..];
        HighEqual(cmp, s, lo, lt, i, j, gt, hi);
        SwapMore(s0, s, gt - 1, j, lo, hi);
        gt := gt - 1;
        Swap(a, gt, j);
      } else {
        HighGreater(cmp, a[..], lo, lt, i, j, gt, hi);
      }
      j := j - 1;
    }
    if i == j {
      HighGreater(cmp, a[..], lo, lt, i, j, gt, hi);
    }
  }

  lemma CrossedMore<T(!new)>(cmp: (T, T) -> int, s0: seq<T>, s: seq<T>, lo: nat, lt: nat, i: nat, j: nat, gt: nat,
      hi: nat)
    requires Parting(cmp, s, lo, lt, i, j + 1, gt, hi) && i < j && cmp(s[lo], s[i]) < 0 && cmp(s[lo], s[j]) > 0
    requires Rearranged(s0, s, lo, hi)
    ensures Parting(cmp, Swapped(s, i, j), lo, lt, i + 1, j, gt, hi) && Rearranged(s0, Swapped(s, i, j), lo, hi)
  {
    hide *;
    PartingBounds(cmp, s, lo, lt, i, j + 1, gt, hi);
    Crossed(cmp, s, lo, lt, i, j, gt, hi);
    SwapMore(s0, s, i, j, lo, hi);
  }

  /** One round of `rqsort`: picks a pivot and leaves the smaller, the equal and the greater elements in order. */
  method Partition<T(!new)>(a: array<T>, lo: nat, n: nat, cmp: (T, T) -> int)
      returns (lt: nat, gt: nat, ghost p: T)
    requires Preorder(cmp) && lo + n <= a.Length && n > 6
    modifies a
    ensures lt < gt <= n && ThreeParts(cmp, p, a[..], lo, lo + lt, lo + gt, lo + n)
    ensures Rearranged(old(a[..]), a[..], lo, lo + n)
  {
    hide *;
    ghost var s0 := a[..];
    var hi, m4 := lo + n, n / 4;
    var m := MedianIndex(a[..], lo + m4, lo + 2 * m4, lo + 3 * m4, cmp);
    Unmoved(s0, lo, hi);
    SwapMore(s0, s0, lo, m, lo, hi);
    Swap(a, lo, m);
    PartingStart(cmp, a[..], lo, hi);
    var t: nat, i: nat, j: nat, g: nat := lo + 1, lo + 1, hi, hi;
    while true
      invariant lo < i <= j <= a.Length && Parting(cmp, a[..], lo, t, i, j, g, hi) && Rearranged(s0, a[..], lo, hi)
      decreases j - i
    {
      ghost var s := a[..];
      t, i := ScanUp(a, lo, t, i, j, g, hi, cmp);
      RearrangedTwice(s0, s, a[..], lo, hi);
      s := a[..];
      var k;
      k, g := ScanDown(a, lo, t, i, j, g, hi, cmp);
      RearrangedTwice(s0, s, a[..], lo, hi);
      if i >= k {
        break;
      }
      CrossedMore(cmp, s0, a[..], lo, t, i, k, g, hi);
      Swap(a, i, k);
      i := i + 1;
      j := k;
    }
    ghost var s := a[..];
    p := a[lo];
    t, g := Gather(a, lo, t, i, g, hi, cmp);
    RearrangedTwice(s0, s, a[..], lo, hi);
    lt, gt := t - lo, g - lo;
  }

  /** `med3` on positions. */
  function MedianIndex<T(!new)>(s: seq<T>, x: nat, y: nat, z: nat, cmp: (T, T) -> int): (m: nat)
    requires x < |s| && y < |s| && z < |s|
    ensures m in [x, y, z] && s[m] == Med3(cmp, s[x], s[y], s[z])
  {
    if cmp(s[x], s[y]) < 0 then
      if cmp(s[y], s[z]) < 0 then y else if cmp(s[x], s[z]) < 0 then z else x
    else
      if cmp(s[y], s[z]) > 0 then y else if cmp(s[x], s[z]) < 0 then x else z
  }

  // ----- The stack of stretches still to be sorted -----

  /** An entry of the stack: `count` elements from `base`. */
  datatype Stretch = Stretch(base: nat, count: nat, depth: nat)

  /** `x` and `y` lie in one stretch. */
  predicate Within(f: Stretch, x: nat, y: nat) {
    f.base <= x && y < f.base + f.count
  }

  predicate Covered(fs: seq<Stretch>, x: nat, y: nat) {
    exists k :: 0 <= k < |fs| && Within(fs[k], x, y)
  }

  /** Elements in the wrong order are in one stretch. */
  ghost predicate Pending<T(!new)>(cmp: (T, T) -> int, s: seq<T>, fs: seq<Stretch>) {
    forall x: nat, y: nat :: x < y < |s| && cmp(s[x], s[y]) > 0 ==> Covered(fs, x, y)
  }

  predicate Apart(f: Stretch, g: Stretch) {
    f.base + f.count <= g.base || g.base + g.count <= f.base
  }

  ghost predicate Disjoint(fs: seq<Stretch>, n: nat) {
    && (forall k :: 0 <= k < |fs| ==> fs[k].base + fs[k].count <= n)
    && (forall j, k :: 0 <= j < k < |fs| ==> Apart(fs[j], fs[k]))
  }

  lemma ApartTop(fs: seq<Stretch>, f: Stretch, n: nat, k: nat)
    requires Disjoint(fs + [f], n) && k < |fs|
    ensures Apart(fs[k], f) && fs[k].base + fs[k].count <= n && f.base + f.count <= n
  {
    var gs := fs + [f];
    assert gs[k] == fs[k] && gs[|fs|] == f;
  }

  lemma Outside(fs: seq<Stretch>, f: Stretch, n: nat, x: nat, y: nat)
    requires Disjoint(fs + [f], n) && x < y && Covered(fs + [f], x, y)
    requires Within(f, x, x) || Within(f, y, y)
    ensures Within(f, x, y)
  {
    forall k | 0 <= k < |fs| ensures Apart(fs[k], f) {
      ApartTop(fs, f, n, k);
    }
  }

  /** Rearranging the top stretch leaves everything outside in order. */
  lemma PendingRearranged<T(!new)>(cmp: (T, T) -> int, s: seq<T>, t: seq<T>, fs: seq<Stretch>, f: Stretch)
    requires Pending(cmp, s, fs + [f]) && Disjoint(fs + [f], |s|)
    requires Rearranged(s, t, f.base, f.base + f.count)
    ensures Pending(cmp, t, fs + [f])
  {
    forall x: nat, y: nat | x < y < |t| && cmp(t[x], t[y]) > 0 ensures Covered(fs + [f], x, y) {
      MovedPair(cmp, s, t, fs, f, x, y);
    }
  }

  lemma MovedPair<T(!new)>(cmp: (T, T) -> int, s: seq<T>, t: seq<T>, fs: seq<Stretch>, f: Stretch, x: nat, y: nat)
    requires Pending(cmp, s, fs + [f]) && Disjoint(fs + [f], |s|)
    requires Rearranged(s, t, f.base, f.base + f.count)
    requires x < y < |t| && cmp(t[x], t[y]) > 0
    ensures Covered(fs + [f], x, y)
  {
    var lo, hi := f.base, f.base + f.count;
    assert (fs + [f])[|fs|] == f;
    if lo <= x && y < hi {
      assert Within((fs + [f])[|fs|], x, y);
    } else if lo <= x < hi {
      var z := From(s, t, lo, hi, x);
      assert cmp(s[z], s[y]) > 0;
      Outside(fs, f, |s|, z, y);
    } else if lo <= y < hi {
      var z := From(s, t, lo, hi, y);
      assert cmp(s[x], s[z]) > 0;
      Outside(fs, f, |s|, x, z);
    }
  }

  /** A sorted stretch needs no more work. */
  lemma PendingSorted<T(!new)>(cmp: (T, T) -> int, s: seq<T>, fs: seq<Stretch>, f: Stretch)
    requires Pending(cmp, s, fs + [f]) && Sorted(cmp, s, f.base, f.base + f.count)
    ensures Pending(cmp, s, fs)
  {
    forall x: nat, y: nat | x < y < |s| && cmp(s[x], s[y]) > 0 ensures Covered(fs, x, y) {
      var gs := fs + [f];
      var k :| 0 <= k < |gs| && Within(gs[k], x, y);
      assert k < |fs| && Within(fs[k], x, y);
    }
  }

  lemma CoveredMore(fs: seq<Stretch>, gs: seq<Stretch>, x: nat, y: nat)
    requires Covered(fs, x, y)
    ensures Covered(fs + gs, x, y)
  {
    var k :| 0 <= k < |fs| && Within(fs[k], x, y);
    assert Within((fs + gs)[k], x, y);
  }

  lemma PendingMore<T(!new)>(cmp: (T, T) -> int, s: seq<T>, fs: seq<Stretch>, f: Stretch)
    requires Pending(cmp, s, fs)
    ensures Pending(cmp, s, fs + [f])
  {
    forall x: nat, y: nat | x < y < |s| && cmp(s[x], s[y]) > 0 ensures Covered(fs + [f], x, y) {
      CoveredMore(fs, [f], x, y);
    }
  }

  /** `f` falls into `g` and `h` with equal elements between them. */
  predicate Halves(f: Stretch, g: Stretch, h: Stretch, m: nat, e: nat) {
    && f.base <= m < e <= f.base + f.count
    && ((g.base == f.base && g.count == m - f.base && h.base == e && h.count == f.base + f.count - e)
        || (h.base == f.base && h.count == m - f.base && g.base == e && g.count == f.base + f.count - e))
  }

  lemma HalvedPair<T(!new)>(cmp: (T, T) -> int, p: T, s: seq<T>, f: Stretch, g: Stretch, h: Stretch, m: nat, e: nat,
      x: nat, y: nat)
    requires Preorder(cmp) && ThreeParts(cmp, p, s, f.base, m, e, f.base + f.count) && Halves(f, g, h, m, e)
    requires x < y && Within(f, x, y) && cmp(s[x], s[y]) > 0
    ensures Within(g, x, y) || Within(h, x, y)
  {
    Converse(cmp, p, s[x]);
    Converse(cmp, p, s[y]);
    Trans(cmp, s[x], p, s[y]);
  }

  lemma PendingHalved<T(!new)>(cmp: (T, T) -> int, p: T, s: seq<T>, fs: seq<Stretch>, f: Stretch, g: Stretch,
      h: Stretch, m: nat, e: nat)
    requires Preorder(cmp) && Pending(cmp, s, fs + [f])
    requires ThreeParts(cmp, p, s, f.base, m, e, f.base + f.count) && Halves(f, g, h, m, e)
    ensures Pending(cmp, s, fs + [g] + [h])
  {
    forall x: nat, y: nat | x < y < |s| && cmp(s[x], s[y]) > 0 ensures Covered(fs + [g] + [h], x, y) {
      var gs := fs + [f];
      var k :| 0 <= k < |gs| && Within(gs[k], x, y);
      var hs := fs + [g] + [h];
      if k < |fs| {
        assert Within(hs[k], x, y);
      } else {
        HalvedPair(cmp, p, s, f, g, h, m, e, x, y);
        assert Within(hs[|fs|], x, y) || Within(hs[|fs| + 1], x, y);
      }
    }
  }

  lemma DisjointHalved(fs: seq<Stretch>, f: Stretch, g: Stretch, h: Stretch, m: nat, e: nat, n: nat)
    requires Disjoint(fs + [f], n) && Halves(f, g, h, m, e)
    ensures Disjoint(fs + [g] + [h], n)
  {
    var gs := fs + [f];
    assert gs[|fs|] == f;
    forall j | 0 <= j < |fs| ensures Apart(fs[j], f) && fs[j].base + fs[j].count <= n {
      ApartTop(fs, f, n, j);
    }
    forall j, k | 0 <= j < k < |fs| ensures Apart(fs[j], fs[k]) {
      assert Apart(gs[j], gs[k]);
    }
  }

  // ----- The depth of the stack -----

  /** Depths grow strictly up the stack, from at least 1. */
  ghost predicate Deepening(fs: seq<Stretch>, depth: nat) {
    && (forall k :: 0 <= k < |fs| ==> k < fs[k].depth <= depth)
    && (forall j, k :: 0 <= j < k < |fs| ==> fs[j].depth < fs[k].depth)
  }

  lemma PushDeeper(fs: seq<Stretch>, f: Stretch, depth: nat)
    requires Deepening(fs, depth) && f.depth == depth + 1 <= 50
    ensures |fs| < 50 && Deepening(fs + [f], depth + 1)
  {
    if fs != [] {
      assert |fs| - 1 < fs[|fs| - 1].depth;
    }
  }

  lemma PopDeeper(fs: seq<Stretch>, f: Stretch, depth: nat)
    requires Deepening(fs + [f], depth)
    ensures Deepening(fs, f.depth)
  {
    var gs := fs + [f];
    forall k | 0 <= k < |fs| ensures k < fs[k].depth <= f.depth {
      assert gs[k] == fs[k] && gs[|fs|] == f;
    }
    forall j, k | 0 <= j < k < |fs| ensures fs[j].depth < fs[k].depth {
      assert gs[j].depth < gs[k].depth;
    }
  }

  function Weight(fs: seq<Stretch>): nat {
    if fs == [] then 0 else Weight(fs[..|fs| - 1]) + fs[|fs| - 1].count + 1
  }

  lemma WeightPush(fs: seq<Stretch>, f: Stretch)
    ensures Weight(fs + [f]) == Weight(fs) + f.count + 1
  {
    assert (fs + [f])[..|fs|] == fs;
  }

  lemma WeightTop(fs: seq<Stretch>)
    requires fs != []
    ensures Weight(fs) == Weight(fs[..|fs| - 1]) + fs[|fs| - 1].count + 1
  {
  }

  // ----- rqsort -----

  /** Between two rounds of the outer loop. */
  ghost predicate Ready<T(!new)>(cmp: (T, T) -> int, s0: seq<T>, s: seq<T>, fs: seq<Stretch>) {
    && Rearranged(s0, s, 0, |s0|) && Pending(cmp, s, fs) && Disjoint(fs, |s|)
    && (Deepening(fs, 50) || (|fs| == 1 && fs[0].depth == 0))
  }

  /** Working on the stretch `f`. */
  ghost predicate Working<T(!new)>(cmp: (T, T) -> int, s0: seq<T>, s: seq<T>, fs: seq<Stretch>, f: Stretch) {
    && Rearranged(s0, s, 0, |s0|) && Pending(cmp, s, fs + [f]) && Disjoint(fs + [f], |s|)
    && Deepening(fs, f.depth) && Deepening(fs, 50)
  }

  lemma ReadyStart<T(!new)>(cmp: (T, T) -> int, s: seq<T>)
    ensures Ready(cmp, s, s, [Stretch(0, |s|, 0)])
  {
    var fs := [Stretch(0, |s|, 0)];
    forall x: nat, y: nat | x < y < |s| && cmp(s[x], s[y]) > 0 ensures Covered(fs, x, y) {
      assert Within(fs[0], x, y);
    }
  }

  lemma ReadyPop<T(!new)>(cmp: (T, T) -> int, s0: seq<T>, s: seq<T>, fs: seq<Stretch>, f: Stretch)
    requires Ready(cmp, s0, s, fs + [f])
    ensures Working(cmp, s0, s, fs, f) && f.depth <= 50
  {
    hide Rearranged, Pending, Disjoint;
    var gs := fs + [f];
    assert gs[|fs|] == f;
    if Deepening(gs, 50) {
      PopDeeper(fs, f, 50);
    }
  }

  lemma WorkingParts<T(!new)>(cmp: (T, T) -> int, s0: seq<T>, s: seq<T>, fs: seq<Stretch>, f: Stretch)
    requires Working(cmp, s0, s, fs, f)
    ensures |s0| == |s| && f.base + f.count <= |s|
  {
    assert (fs + [f])[|fs|] == f;
  }

  lemma WorkDeeper<T(!new)>(cmp: (T, T) -> int, s0: seq<T>, s: seq<T>, fs: seq<Stretch>, f: Stretch, g: Stretch)
    requires Working(cmp, s0, s, fs, f) && f.depth <= 50 && g == f.(depth := f.depth + 1)
    ensures Working(cmp, s0, s, fs, g)
  {
    hide Rearranged, Disjoint, Pending;
    SameDisjoint(fs, f, g, |s|);
    SamePending(cmp, s, fs, f, g);
  }

  lemma SameDisjoint(fs: seq<Stretch>, f: Stretch, g: Stretch, n: nat)
    requires Disjoint(fs + [f], n) && g.base == f.base && g.count <= f.count
    ensures Disjoint(fs + [g], n)
  {
    var hs, gs := fs + [f], fs + [g];
    forall j, k | 0 <= j < k < |gs| ensures Apart(gs[j], gs[k]) {
      assert Apart(hs[j], hs[k]);
    }
    assert hs[|fs|] == f;
    forall k | 0 <= k < |gs| ensures gs[k].base + gs[k].count <= n {
      assert hs[k].base + hs[k].count <= n;
    }
  }

  lemma SamePending<T(!new)>(cmp: (T, T) -> int, s: seq<T>, fs: seq<Stretch>, f: Stretch, g: Stretch)
    requires Pending(cmp, s, fs + [f]) && g.base == f.base && g.count == f.count
    ensures Pending(cmp, s, fs + [g])
  {
    forall x: nat, y: nat | x < y < |s| && cmp(s[x], s[y]) > 0 ensures Covered(fs + [g], x, y) {
      var hs := fs + [f];
      var k :| 0 <= k < |hs| && Within(hs[k], x, y);
      assert Within((fs + [g])[k], x, y);
    }
  }

  /** The stretch is rearranged. */
  lemma WorkMoved<T(!new)>(cmp: (T, T) -> int, s0: seq<T>, s: seq<T>, t: seq<T>, fs: seq<Stretch>, f: Stretch)
    requires Working(cmp, s0, s, fs, f) && Rearranged(s, t, f.base, f.base + f.count)
    ensures Working(cmp, s0, t, fs, f)
  {
    WorkingParts(cmp, s0, s, fs, f);
    RearrangedParts(s, t, f.base, f.base + f.count);
    hide Rearranged, Disjoint, Pending, Deepening;
    PendingRearranged(cmp, s, t, fs, f);
    Widen(s, t, f.base, f.base + f.count, 0, |s|);
    RearrangedTwice(s0, s, t, 0, |s0|);
  }

  /** The stretch is sorted and given up. */
  lemma WorkDone<T(!new)>(cmp: (T, T) -> int, s0: seq<T>, s: seq<T>, fs: seq<Stretch>, f: Stretch)
    requires Working(cmp, s0, s, fs, f) && Sorted(cmp, s, f.base, f.base + f.count)
    ensures Ready(cmp, s0, s, fs)
  {
    hide Rearranged, Sorted, Pending;
    PendingSorted(cmp, s, fs, f);
    DisjointTail(fs, f, |s|);
  }

  lemma DisjointTail(fs: seq<Stretch>, f: Stretch, n: nat)
    requires Disjoint(fs + [f], n)
    ensures Disjoint(fs, n)
  {
    var gs := fs + [f];
    forall j, k | 0 <= j < k < |fs| ensures Apart(fs[j], fs[k]) {
      assert Apart(gs[j], gs[k]);
    }
    forall k | 0 <= k < |fs| ensures fs[k].base + fs[k].count <= n {
      assert gs[k].base + gs[k].count <= n;
    }
  }

  /** Heap sort has sorted the stretch. */
  lemma WorkSorted<T(!new)>(cmp: (T, T) -> int, s0: seq<T>, s: seq<T>, fs: seq<Stretch>, f: Stretch)
    requires Working(cmp, s0, s, fs, f) && Sorted(cmp, s, f.base, f.base + f.count)
    ensures Working(cmp, s0, s, fs, f.(count := 0))
  {
    hide Rearranged, Sorted, Pending, Deepening;
    PendingSorted(cmp, s, fs, f);
    PendingMore(cmp, s, fs, f.(count := 0));
    SameDisjoint(fs, f, f.(count := 0), |s|);
  }

  /** `g` goes on the stack and `h` is next. */
  lemma WorkHalved<T(!new)>(cmp: (T, T) -> int, p: T, s0: seq<T>, s: seq<T>, fs: seq<Stretch>, f: Stretch, g: Stretch,
      h: Stretch, m: nat, e: nat)
    requires Preorder(cmp) && Working(cmp, s0, s, fs, f) && f.depth <= 50
    requires ThreeParts(cmp, p, s, f.base, m, e, f.base + f.count) && Halves(f, g, h, m, e)
    requires f.depth >= 1 && g.depth == h.depth == f.depth && Deepening(fs, f.depth - 1)
    ensures |fs| < 50 && Working(cmp, s0, s, fs + [g], h)
  {
    hide Rearranged, Pending, ThreeParts, Preorder, Disjoint;
    PendingHalved(cmp, p, s, fs, f, g, h, m, e);
    DisjointHalved(fs, f, g, h, m, e, |s|);
    PushDeeper(fs, g, f.depth - 1);
  }

  lemma AllSorted<T(!new)>(cmp: (T, T) -> int, s0: seq<T>, s: seq<T>)
    requires Ready(cmp, s0, s, [])
    ensures Sorted(cmp, s, 0, |s|) && Rearranged(s0, s, 0, |s|) && |s| == |s0|
  {
    forall x: nat, y: nat | x < y < |s| ensures cmp(s[x], s[y]) <= 0 {
      assert cmp(s[x], s[y]) > 0 ==> Covered([], x, y);
    }
  }

  lemma SameElements<T>(s: seq<T>, t: seq<T>)
    requires Rearranged(s, t, 0, |s|)
    ensures multiset(t) == multiset(s)
  {
    assert s[0..|s|] == s && t[0..|t|] == t;
  }

  lemma Depth<T(!new)>(cmp: (T, T) -> int, s0: seq<T>, s: seq<T>, fs: seq<Stretch>, f: Stretch)
    requires Working(cmp, s0, s, fs, f)
    ensures Deepening(fs, f.depth)
  {
  }

  /** `rqsort`. Its stack is an array of 50 entries; that every index into it is good is part of what is proved. */
  method Rqsort<T(!new)>(a: array<T>, cmp: (T, T) -> int)
    requires Preorder(cmp)
    modifies a
    ensures Sorted(cmp, a[..], 0, a.Length) && multiset(a[..]) == multiset(old(a[..]))
  {
    hide *;
    ghost var s0 := a[..];
    if a.Length < 2 {
      SortedShort(cmp, a[..], 0, a.Length);
      return;
    }
    var stack := new Stretch[50](_ => Stretch(0, 0, 0));
    stack[0] := Stretch(0, a.Length, 0);
    var sp: nat := 1;
    ghost var fs := [Stretch(0, |s0|, 0)];
    ReadyStart(cmp, s0);
    while sp > 0
      invariant sp <= 50 && fs == stack[..sp] && Ready(cmp, s0, a[..], fs)
      decreases Weight(fs)
    {
      sp := sp - 1;
      var f := stack[sp];
      assert fs == fs[..sp] + [f];
      WeightTop(fs);
      ghost var w := Weight(fs);
      fs := fs[..sp];
      ReadyPop(cmp, s0, a[..], fs, f);
      while f.count > 6
        invariant sp <= 50 && fs == stack[..sp] && Working(cmp, s0, a[..], fs, f) && f.depth <= 50
        invariant Weight(fs) + f.count < w
        decreases f.count
      {
        WorkingParts(cmp, s0, a[..], fs, f);
        Depth(cmp, s0, a[..], fs, f);
        ghost var d := f.depth;
        WorkDeeper(cmp, s0, a[..], fs, f, f.(depth := f.depth + 1));
        f := f.(depth := f.depth + 1);
        ghost var s := a[..];
        if f.depth > 50 {
          HeapSort(a, f.base, f.count, cmp);
          WorkMoved(cmp, s0, s, a[..], fs, f);
          WorkSorted(cmp, s0, a[..], fs, f);
          f := f.(count := 0);
          break;
        }
        var lt, gt;
        ghost var p;
        lt, gt, p := Partition(a, f.base, f.count, cmp);
        WorkMoved(cmp, s0, s, a[..], fs, f);
        var low := Stretch(f.base, lt, f.depth);
        var high := Stretch(f.base + gt, f.count - gt, f.depth);
        var larger, smaller := low, high;
        if lt <= f.count - gt {
          larger, smaller := high, low;
        }
        HalvesOf(f, larger, smaller, lt, gt);
        WorkHalved(cmp, p, s0, a[..], fs, f, larger, smaller, f.base + lt, f.base + gt);
        WeightPush(fs, larger);
        stack[sp] := larger;
        sp := sp + 1;
        fs := fs + [larger];
        f := smaller;
      }
      WorkingParts(cmp, s0, a[..], fs, f);
      ghost var s := a[..];
      InsertionSort(a, f.base, f.base + f.count, cmp);
      WorkMoved(cmp, s0, s, a[..], fs, f);
      WorkDone(cmp, s0, a[..], fs, f);
    }
    AllSorted(cmp, s0, a[..]);
    SameElements(s0, a[..]);
  }

  lemma HalvesOf(f: Stretch, g: Stretch, h: Stretch, lt: nat, gt: nat)
    requires lt < gt <= f.count
    requires var low, high := Stretch(f.base, lt, f.depth), Stretch(f.base + gt, f.count - gt, f.depth);
             (g == low && h == high) || (g == high && h == low)
    ensures Halves(f, g, h, f.base + lt, f.base + gt)
  {
  }
}
