/** The parts of `rqsort` (cutils.h): comparison functions, exchanges, insertion sort and heap sort
    on a stretch of an array. */
module Sorting {
  /** What a comparison function has to be: a total preorder. */
  ghost predicate Preorder<T(!new)>(cmp: (T, T) -> int) {
    && (forall x, y :: cmp(x, y) <= 0 <==> cmp(y, x) >= 0)
    && (forall x, y, z :: cmp(x, y) <= 0 && cmp(y, z) <= 0 ==> cmp(x, z) <= 0)
  }

  lemma Trans<T(!new)>(cmp: (T, T) -> int, x: T, y: T, z: T)
    requires Preorder(cmp)
    ensures cmp(x, y) <= 0 && cmp(y, z) <= 0 ==> cmp(x, z) <= 0
  {
  }

  lemma Converse<T(!new)>(cmp: (T, T) -> int, x: T, y: T)
    requires Preorder(cmp)
    ensures cmp(x, y) <= 0 <==> cmp(y, x) >= 0
    ensures cmp(x, y) >= 0 <==> cmp(y, x) <= 0
  {
  }

  lemma Reflexive<T(!new)>(cmp: (T, T) -> int, x: T)
    requires Preorder(cmp)
    ensures cmp(x, x) == 0
  {
    assert cmp(x, x) <= 0 <==> cmp(x, x) >= 0;
  }

  ghost predicate Sorted<T(!new)>(cmp: (T, T) -> int, s: seq<T>, lo: nat, hi: nat) {
    lo <= hi <= |s| && forall i, j :: lo <= i < j < hi ==> cmp(s[i], s[j]) <= 0
  }

  // ----- Rearranging a stretch -----

  /** `t` is `s` with the elements from `lo` to `hi` rearranged. */
  ghost predicate Rearranged<T>(s: seq<T>, t: seq<T>, lo: nat, hi: nat) {
    && lo <= hi <= |s| == |t|
    && (forall k :: 0 <= k < |s| && !(lo <= k < hi) ==> t[k] == s[k])
    && multiset(t[lo..hi]) == multiset(s[lo..hi])
  }

  lemma Unmoved<T>(s: seq<T>, lo: nat, hi: nat)
    requires lo <= hi <= |s|
    ensures Rearranged(s, s, lo, hi)
  {
  }

  lemma RearrangedTwice<T>(s: seq<T>, t: seq<T>, u: seq<T>, lo: nat, hi: nat)
    requires Rearranged(s, t, lo, hi) && Rearranged(t, u, lo, hi)
    ensures Rearranged(s, u, lo, hi)
  {
  }

  lemma Widen<T>(s: seq<T>, t: seq<T>, lo: nat, hi: nat, l: nat, h: nat)
    requires Rearranged(s, t, lo, hi) && l <= lo && hi <= h <= |s|
    ensures Rearranged(s, t, l, h)
  {
    assert s[l..h] == s[l..lo] + s[lo..hi] + s[hi..h];
    assert t[l..h] == t[l..lo] + t[lo..hi] + t[hi..h];
    assert s[l..lo] == t[l..lo] && s[hi..h] == t[hi..h];
  }

  lemma RearrangedParts<T>(s: seq<T>, t: seq<T>, lo: nat, hi: nat)
    requires Rearranged(s, t, lo, hi)
    ensures lo <= hi <= |s| == |t|
    ensures forall k :: 0 <= k < |s| && !(lo <= k < hi) ==> t[k] == s[k]
  {
  }

  /** Every element of the stretch was in it before. */
  lemma From<T>(s: seq<T>, t: seq<T>, lo: nat, hi: nat, k: nat) returns (i: nat)
    requires Rearranged(s, t, lo, hi) && lo <= k < hi
    ensures lo <= i < hi && s[i] == t[k]
  {
    assert t[k] == t[lo..hi][k - lo];
    assert t[k] in multiset(t[lo..hi]);
    assert t[k] in s[lo..hi];
    var j :| 0 <= j < hi - lo && s[lo..hi][j] == t[k];
    i := lo + j;
  }

  function Swapped<T>(s: seq<T>, i: nat, j: nat): seq<T>
    requires i < |s| && j < |s|
  {
    s[i := s[j]][j := s[i]]
  }

  lemma SwappedRearranged<T>(s: seq<T>, i: nat, j: nat, lo: nat, hi: nat)
    requires lo <= i < hi <= |s| && lo <= j < hi
    ensures Rearranged(s, Swapped(s, i, j), lo, hi)
  {
    assert Swapped(s, i, j)[lo..hi] == Swapped(s[lo..hi], i - lo, j - lo);
  }

  lemma SwapMore<T>(s0: seq<T>, s: seq<T>, i: nat, j: nat, lo: nat, hi: nat)
    requires Rearranged(s0, s, lo, hi) && lo <= i < hi <= |s| && lo <= j < hi
    ensures Rearranged(s0, Swapped(s, i, j), lo, hi)
  {
    SwappedRearranged(s, i, j, lo, hi);
  }

  method Swap<T>(a: array<T>, i: nat, j: nat)
    requires i < a.Length && j < a.Length
    modifies a
    ensures a[..] == Swapped(old(a[..]), i, j)
  {
    a[i], a[j] := a[j], a[i];
  }

  // ----- Insertion sort -----

  /** Sorted from `lo` to `hi` but for the element at `p`, which may have to move down. */
  ghost predicate SortedBut<T(!new)>(cmp: (T, T) -> int, s: seq<T>, lo: nat, hi: nat, p: nat) {
    lo <= p < hi <= |s| && forall i, j :: lo <= i < j < hi && j != p ==> cmp(s[i], s[j]) <= 0
  }

  lemma MoveDown<T(!new)>(cmp: (T, T) -> int, s: seq<T>, lo: nat, hi: nat, p: nat)
    requires Preorder(cmp) && SortedBut(cmp, s, lo, hi, p) && lo < p && cmp(s[p - 1], s[p]) > 0
    ensures SortedBut(cmp, Swapped(s, p, p - 1), lo, hi, p - 1)
  {
    var t := Swapped(s, p, p - 1);
    forall i, j | lo <= i < j < hi && j != p - 1 ensures cmp(t[i], t[j]) <= 0 {
      Converse(cmp, s[p - 1], s[p]);
    }
  }

  lemma Settled<T(!new)>(cmp: (T, T) -> int, s: seq<T>, lo: nat, hi: nat, p: nat)
    requires Preorder(cmp) && SortedBut(cmp, s, lo, hi, p)
    requires lo == p || cmp(s[p - 1], s[p]) <= 0
    ensures Sorted(cmp, s, lo, hi)
  {
    forall i, j | lo <= i < j < hi ensures cmp(s[i], s[j]) <= 0 {
      if j == p && i < p - 1 {
        Trans(cmp, s[i], s[p - 1], s[p]);
      }
    }
  }

  lemma OneMore<T(!new)>(cmp: (T, T) -> int, s: seq<T>, lo: nat, p: nat)
    requires Sorted(cmp, s, lo, p) && p < |s|
    ensures SortedBut(cmp, s, lo, p + 1, p)
  {
  }

  /** The loop for small stretches at the end of `rqsort`. */
  method InsertionSort<T(!new)>(a: array<T>, lo: nat, hi: nat, cmp: (T, T) -> int)
    requires Preorder(cmp) && lo <= hi <= a.Length
    modifies a
    ensures Sorted(cmp, a[..], lo, hi) && Rearranged(old(a[..]), a[..], lo, hi)
  {
    hide *;
    ghost var s0 := a[..];
    var p := lo + 1;
    InsertStart(cmp, a[..], lo, hi);
    while p < hi
      invariant lo < p && (p <= hi || lo == hi)
      invariant Sorted(cmp, a[..], lo, if lo == hi then hi else p) && Rearranged(s0, a[..], lo, hi)
      decreases hi - p
    {
      var q := p;
      OneMore(cmp, a[..], lo, p);
      while q > lo && cmp(a[q - 1], a[q]) > 0
        invariant lo <= q <= p
        invariant SortedBut(cmp, a[..], lo, p + 1, q) && Rearranged(s0, a[..], lo, hi)
        decreases q
      {
        ghost var s := a[..];
        MoveDown(cmp, s, lo, p + 1, q);
        SwapMore(s0, s, q, q - 1, lo, hi);
        Swap(a, q, q - 1);
        q := q - 1;
      }
      Settled(cmp, a[..], lo, p + 1, q);
      p := p + 1;
    }
  }

  lemma InsertStart<T(!new)>(cmp: (T, T) -> int, s: seq<T>, lo: nat, hi: nat)
    requires lo <= hi <= |s|
    ensures Sorted(cmp, s, lo, if lo == hi then hi else lo + 1) && Rearranged(s, s, lo, hi)
  {
  }

  // ----- heapsortx -----

  predicate Child(p: nat, c: nat) {
    c == 2 * p + 1 || c == 2 * p + 2
  }

  /** No element from position `from` up is below a child of it that is before position `n`. */
  ghost predicate Heap<T(!new)>(cmp: (T, T) -> int, s: seq<T>, lo: nat, from: nat, n: nat) {
    lo + n <= |s| && forall p: nat, c: nat :: from <= p && c < n && Child(p, c) ==> cmp(s[lo + p], s[lo + c]) >= 0
  }

  /** A heap but for the element at `r`, which may be too small for its place. */
  ghost predicate HeapBut<T(!new)>(cmp: (T, T) -> int, s: seq<T>, lo: nat, from: nat, n: nat, r: nat) {
    && lo + n <= |s| && from <= r < n
    && (forall p: nat, c: nat :: from <= p && c < n && Child(p, c) && p != r ==> cmp(s[lo + p], s[lo + c]) >= 0)
    && (forall p: nat, c: nat ::
          from <= p && c < n && Child(p, r) && Child(r, c) ==> cmp(s[lo + p], s[lo + c]) >= 0)
  }

  /** `c` is the child to compare with: the greater of the two, or the only one. */
  ghost predicate GreaterChild<T(!new)>(cmp: (T, T) -> int, s: seq<T>, lo: nat, n: nat, r: nat, c: nat) {
    lo + n <= |s| && c < n && Child(r, c) && forall d: nat :: d < n && Child(r, d) ==> cmp(s[lo + c], s[lo + d]) >= 0
  }

  lemma SiftStep<T(!new)>(cmp: (T, T) -> int, s: seq<T>, lo: nat, from: nat, n: nat, r: nat, c: nat)
    requires Preorder(cmp) && HeapBut(cmp, s, lo, from, n, r) && GreaterChild(cmp, s, lo, n, r, c)
    requires cmp(s[lo + r], s[lo + c]) <= 0
    ensures HeapBut(cmp, Swapped(s, lo + r, lo + c), lo, from, n, c)
  {
    var t := Swapped(s, lo + r, lo + c);
    forall p: nat, d: nat | from <= p && d < n && Child(p, d) && p != c ensures cmp(t[lo + p], t[lo + d]) >= 0 {
      Converse(cmp, s[lo + c], s[lo + r]);
    }
  }

  lemma SiftStop<T(!new)>(cmp: (T, T) -> int, s: seq<T>, lo: nat, from: nat, n: nat, r: nat, c: nat)
    requires Preorder(cmp) && HeapBut(cmp, s, lo, from, n, r) && GreaterChild(cmp, s, lo, n, r, c)
    requires cmp(s[lo + r], s[lo + c]) > 0
    ensures Heap(cmp, s, lo, from, n)
  {
    forall d: nat | d < n && Child(r, d) ensures cmp(s[lo + r], s[lo + d]) >= 0 {
      Converse(cmp, s[lo + c], s[lo + d]);
      Converse(cmp, s[lo + r], s[lo + c]);
      Converse(cmp, s[lo + r], s[lo + d]);
      Trans(cmp, s[lo + d], s[lo + c], s[lo + r]);
    }
  }

  lemma SiftLeaf<T(!new)>(cmp: (T, T) -> int, s: seq<T>, lo: nat, from: nat, n: nat, r: nat)
    requires HeapBut(cmp, s, lo, from, n, r) && 2 * r + 1 >= n
    ensures Heap(cmp, s, lo, from, n)
  {
  }

  lemma ChooseChild<T(!new)>(cmp: (T, T) -> int, s: seq<T>, lo: nat, n: nat, r: nat, c: nat)
    requires Preorder(cmp) && lo + n <= |s| && 2 * r + 1 < n
    requires c == if 2 * r + 2 < n && cmp(s[lo + 2 * r + 1], s[lo + 2 * r + 2]) <= 0 then 2 * r + 2 else 2 * r + 1
    ensures GreaterChild(cmp, s, lo, n, r, c)
  {
    Reflexive(cmp, s[lo + c]);
    if 2 * r + 2 < n {
      Converse(cmp, s[lo + 2 * r + 1], s[lo + 2 * r + 2]);
    }
  }

  lemma HeapButBounds<T(!new)>(cmp: (T, T) -> int, s: seq<T>, lo: nat, from: nat, n: nat, r: nat)
    requires HeapBut(cmp, s, lo, from, n, r)
    ensures from <= r < n && lo + n <= |s|
  {
  }

  /** The inner loop of `heapsortx`: lets the element at position `from` sink into the heap below it. */
  method SiftDown<T(!new)>(a: array<T>, lo: nat, from: nat, n: nat, cmp: (T, T) -> int)
    requires Preorder(cmp) && HeapBut(cmp, a[..], lo, from, n, from)
    modifies a
    ensures Heap(cmp, a[..], lo, from, n)
    ensures lo + n <= a.Length && Rearranged(old(a[..]), a[..], lo, lo + n)
  {
    hide *;
    ghost var s0 := a[..];
    var r := from;
    HeapButBounds(cmp, s0, lo, from, n, r);
    Unmoved(s0, lo, lo + n);
    while 2 * r + 1 < n
      invariant r < n && lo + n <= a.Length
      invariant HeapBut(cmp, a[..], lo, from, n, r) && Rearranged(s0, a[..], lo, lo + n)
      decreases n - r
    {
      var c := 2 * r + 1;
      ghost var s := a[..];
      if c < n - 1 && cmp(a[lo + c], a[lo + c + 1]) <= 0 {
        c := c + 1;
      }
      ChooseChild(cmp, s, lo, n, r, c);
      if cmp(a[lo + r], a[lo + c]) > 0 {
        SiftStop(cmp, s, lo, from, n, r, c);
        return;
      }
      SiftStep(cmp, s, lo, from, n, r, c);
      SwapMore(s0, s, lo + r, lo + c, lo, lo + n);
      Swap(a, lo + r, lo + c);
      r := c;
    }
    SiftLeaf(cmp, a[..], lo, from, n, r);
  }

  lemma {:induction false} RootGreatest<T(!new)>(cmp: (T, T) -> int, s: seq<T>, lo: nat, n: nat, k: nat)
    requires Preorder(cmp) && Heap(cmp, s, lo, 0, n) && k < n
    ensures cmp(s[lo + k], s[lo]) <= 0
  {
    if k == 0 {
      Reflexive(cmp, s[lo]);
    } else {
      var p := (k - 1) / 2;
      assert Child(p, k);
      RootGreatest(cmp, s, lo, n, p);
      Converse(cmp, s[lo + k], s[lo + p]);
      Trans(cmp, s[lo + k], s[lo + p], s[lo]);
    }
  }

  /** The elements up to `m` are not greater than those from `m` on. */
  ghost predicate Split<T(!new)>(cmp: (T, T) -> int, s: seq<T>, lo: nat, m: nat, hi: nat) {
    lo <= m <= hi <= |s| && forall x, y :: lo <= x < m <= y < hi ==> cmp(s[x], s[y]) <= 0
  }

  /** The first `i` elements are a heap, the others are sorted and no smaller. */
  ghost predicate Selecting<T(!new)>(cmp: (T, T) -> int, s: seq<T>, lo: nat, i: nat, n: nat) {
    i <= n && Heap(cmp, s, lo, 0, i) && Sorted(cmp, s, lo + i, lo + n) && Split(cmp, s, lo, lo + i, lo + n)
  }

  lemma SelectParts<T(!new)>(cmp: (T, T) -> int, s: seq<T>, lo: nat, i: nat, n: nat)
    requires Selecting(cmp, s, lo, i, n)
    ensures i <= n && lo + n <= |s|
    ensures Heap(cmp, s, lo, 0, i) && Sorted(cmp, s, lo + i, lo + n) && Split(cmp, s, lo, lo + i, lo + n)
  {
  }

  lemma RootOut<T(!new)>(cmp: (T, T) -> int, s: seq<T>, lo: nat, i: nat)
    requires Heap(cmp, s, lo, 0, i + 1) && i > 0
    ensures lo + i < |s| && HeapBut(cmp, Swapped(s, lo, lo + i), lo, 0, i, 0)
  {
  }

  /** The root, put in front of the sorted part, is no greater than that and no smaller than the rest. */
  lemma RootPlaced<T(!new)>(cmp: (T, T) -> int, s: seq<T>, lo: nat, i: nat, hi: nat)
    requires Preorder(cmp) && Heap(cmp, s, lo, 0, i + 1) && i > 0
    requires Sorted(cmp, s, lo + i + 1, hi) && Split(cmp, s, lo, lo + i + 1, hi)
    ensures Sorted(cmp, Swapped(s, lo, lo + i), lo + i, hi)
    ensures Split(cmp, Swapped(s, lo, lo + i), lo, lo + i, hi)
  {
    var t := Swapped(s, lo, lo + i);
    forall x | lo <= x <= lo + i ensures cmp(s[x], s[lo]) <= 0 {
      RootGreatest(cmp, s, lo, i + 1, x - lo);
    }
    hide Heap, Preorder;
    assert Sorted(cmp, t, lo + i, hi);
    forall x, y | lo <= x < lo + i <= y < hi ensures cmp(t[x], t[y]) <= 0 {
    }
  }

  lemma SelectRoot<T(!new)>(cmp: (T, T) -> int, s: seq<T>, lo: nat, i: nat, n: nat)
    requires Preorder(cmp) && Selecting(cmp, s, lo, i + 1, n) && i > 0
    ensures i < n && lo + n <= |s| && HeapBut(cmp, Swapped(s, lo, lo + i), lo, 0, i, 0)
    ensures Sorted(cmp, Swapped(s, lo, lo + i), lo + i, lo + n)
    ensures Split(cmp, Swapped(s, lo, lo + i), lo, lo + i, lo + n)
  {
    hide *;
    SelectParts(cmp, s, lo, i + 1, n);
    RootOut(cmp, s, lo, i);
    RootPlaced(cmp, s, lo, i, lo + n);
  }

  lemma SelectMore<T(!new)>(cmp: (T, T) -> int, s: seq<T>, t: seq<T>, lo: nat, i: nat, n: nat)
    requires i <= n && lo + n <= |s| && Rearranged(s, t, lo, lo + i) && Heap(cmp, t, lo, 0, i)
    requires Sorted(cmp, s, lo + i, lo + n) && Split(cmp, s, lo, lo + i, lo + n)
    ensures Selecting(cmp, t, lo, i, n)
  {
    forall x, y | lo <= x < lo + i <= y < lo + n ensures cmp(t[x], t[y]) <= 0 {
      var z := From(s, t, lo, lo + i, x);
    }
  }

  lemma Selected<T(!new)>(cmp: (T, T) -> int, s: seq<T>, lo: nat, n: nat)
    requires Selecting(cmp, s, lo, 1, n)
    ensures Sorted(cmp, s, lo, lo + n)
  {
  }

  lemma HeapStart<T(!new)>(cmp: (T, T) -> int, s: seq<T>, lo: nat, n: nat)
    requires lo + n <= |s|
    ensures Heap(cmp, s, lo, n / 2, n)
  {
  }

  lemma HeapBelow<T(!new)>(cmp: (T, T) -> int, s: seq<T>, lo: nat, i: nat, n: nat)
    requires Heap(cmp, s, lo, i + 1, n) && i < n
    ensures HeapBut(cmp, s, lo, i, n, i)
  {
  }

  lemma SelectStart<T(!new)>(cmp: (T, T) -> int, s: seq<T>, lo: nat, n: nat)
    requires Heap(cmp, s, lo, 0, n)
    ensures Selecting(cmp, s, lo, n, n)
  {
  }

  /** The first loop of `heapsortx`. */
  method BuildHeap<T(!new)>(a: array<T>, lo: nat, n: nat, cmp: (T, T) -> int)
    requires Preorder(cmp) && lo + n <= a.Length
    modifies a
    ensures Heap(cmp, a[..], lo, 0, n) && Rearranged(old(a[..]), a[..], lo, lo + n)
  {
    hide *;
    ghost var s0 := a[..];
    Unmoved(s0, lo, lo + n);
    var i: nat := n / 2;
    HeapStart(cmp, a[..], lo, n);
    while i > 0
      invariant i <= n / 2 && lo + n <= a.Length
      invariant Heap(cmp, a[..], lo, i, n) && Rearranged(s0, a[..], lo, lo + n)
    {
      i := i - 1;
      ghost var s := a[..];
      HeapBelow(cmp, s, lo, i, n);
      SiftDown(a, lo, i, n, cmp);
      RearrangedTwice(s0, s, a[..], lo, lo + n);
    }
  }

  /** `heapsortx`. */
  method HeapSort<T(!new)>(a: array<T>, lo: nat, n: nat, cmp: (T, T) -> int)
    requires Preorder(cmp) && lo + n <= a.Length
    modifies a
    ensures Sorted(cmp, a[..], lo, lo + n) && Rearranged(old(a[..]), a[..], lo, lo + n)
  {
    hide *;
    ghost var s0 := a[..];
    if n > 1 {
      BuildHeap(a, lo, n, cmp);
      SelectStart(cmp, a[..], lo, n);
      var i := n - 1;
      while i > 0
        invariant 0 <= i < n
        invariant Selecting(cmp, a[..], lo, i + 1, n) && Rearranged(s0, a[..], lo, lo + n)
      {
        ghost var s := a[..];
        SelectRoot(cmp, s, lo, i, n);
        Swap(a, lo, lo + i);
        ghost var t := a[..];
        SiftDown(a, lo, 0, i, cmp);
        SelectMore(cmp, t, a[..], lo, i, n);
        SelectRearranged(s0, s, a[..], lo, i, n);
        i := i - 1;
      }
      Selected(cmp, a[..], lo, n);
    } else {
      Unmoved(s0, lo, lo + n);
      SortedShort(cmp, a[..], lo, n);
    }
  }

  lemma SelectRearranged<T>(s0: seq<T>, s: seq<T>, t: seq<T>, lo: nat, i: nat, n: nat)
    requires Rearranged(s0, s, lo, lo + n) && i < n && lo + n <= |s|
    requires Rearranged(Swapped(s, lo, lo + i), t, lo, lo + i)
    ensures Rearranged(s0, t, lo, lo + n)
  {
    hide *;
    SwappedRearranged(s, lo, lo + i, lo, lo + n);
    var u := Swapped(s, lo, lo + i);
    RearrangedParts(u, t, lo, lo + i);
    RearrangedParts(s0, s, lo, lo + n);
    SwappedLength(s, lo, lo + i);
    Widen(u, t, lo, lo + i, lo, lo + n);
    RearrangedTwice(s0, s, u, lo, lo + n);
    RearrangedTwice(s0, u, t, lo, lo + n);
  }

  lemma SwappedLength<T>(s: seq<T>, i: nat, j: nat)
    requires i < |s| && j < |s|
    ensures |Swapped(s, i, j)| == |s|
  {
  }

  lemma SortedShort<T(!new)>(cmp: (T, T) -> int, s: seq<T>, lo: nat, n: nat)
    requires n <= 1 && lo + n <= |s|
    ensures Sorted(cmp, s, lo, lo + n)
  {
  }
}
