/** Character sets as lists of points: a value belongs to the set when an odd number of the
    points are at or below it (`CharRange`, libunicode.h). */
module PointSets {
  const UINT32_MAX: int := 0xFFFF_FFFF

  function CountUpTo(p: seq<int>, c: int): nat {
    if p == [] then 0 else (if p[0] <= c then 1 else 0) + CountUpTo(p[1..], c)
  }

  predicate Member(p: seq<int>, c: int) {
    CountUpTo(p, c) % 2 == 1
  }

  ghost predicate Increasing(p: seq<int>) {
    forall i, j :: 0 <= i < j < |p| ==> p[i] < p[j]
  }

  /** Disjoint, separated, nonempty intervals in order. */
  ghost predicate Canonical(p: seq<int>) {
    |p| % 2 == 0 && Increasing(p)
  }

  lemma {:induction false} CountNone(p: seq<int>, c: int)
    requires forall i :: 0 <= i < |p| ==> c < p[i]
    ensures CountUpTo(p, c) == 0
  {
    if p != [] {
      CountNone(p[1..], c);
    }
  }

  /** In a sorted list the points at or below `c` are a prefix. */
  lemma {:induction false} CountPrefix(p: seq<int>, c: int, k: nat)
    requires k <= |p|
    requires forall i :: 0 <= i < k ==> p[i] <= c
    requires forall i :: k <= i < |p| ==> c < p[i]
    ensures CountUpTo(p, c) == k
  {
    if k == 0 {
      CountNone(p, c);
    } else {
      CountPrefix(p[1..], c, k - 1);
    }
  }
}
