/** The canonical ordering and the recomposition of `unicode_normalize` (libunicode.c); sections D108,
    D109 and D115 to D117 of chapter 3.11 of the Unicode Standard. The class and the composition tables
    are parameters. */
module Combining {
  type Classes = int -> nat

  /** The characters of class `v`, in order. */
  function Select(cc: Classes, s: seq<int>, v: nat): seq<int> {
    if s == [] then [] else (if cc(s[0]) == v then [s[0]] else []) + Select(cc, s[1..], v)
  }

  ghost predicate SameSelect(cc: Classes, s: seq<int>, t: seq<int>) {
    forall v: nat :: Select(cc, s, v) == Select(cc, t, v)
  }

  /** No pair of neighbours is a reorderable pair (D108). */
  ghost predicate Ordered(cc: Classes, s: seq<int>) {
    forall k {:trigger s[k]} :: 0 < k < |s| && cc(s[k]) != 0 ==> cc(s[k - 1]) <= cc(s[k])
  }

  predicate SameStarters(cc: Classes, s: seq<int>, t: seq<int>) {
    |s| == |t| && forall k :: 0 <= k < |s| ==> (cc(s[k]) == 0 || cc(t[k]) == 0 ==> s[k] == t[k])
  }

  /** `k` is the end of a run: a starter follows, or nothing. */
  predicate RunEnd(cc: Classes, s: seq<int>, k: nat) {
    k == |s| || (k < |s| && cc(s[k]) == 0)
  }

  /** `t` is the canonical ordering of `s`: starters stand where they were, every run between them is sorted by class,
      and within a run the characters of one class keep their order. */
  ghost predicate Reordering(cc: Classes, s: seq<int>, t: seq<int>) {
    && SameStarters(cc, s, t) && Ordered(cc, t)
    && forall k: nat :: k <= |s| && RunEnd(cc, s, k) ==> SameSelect(cc, s[..k], t[..k])
  }

  lemma SelectStep(cc: Classes, s: seq<int>, v: nat)
    ensures Select(cc, s, v) == if s == [] then [] else (if cc(s[0]) == v then [s[0]] else []) + Select(cc, s[1..], v)
  {
  }

  lemma {:induction false} SelectConcat(cc: Classes, s: seq<int>, t: seq<int>, v: nat)
    ensures Select(cc, s + t, v) == Select(cc, s, v) + Select(cc, t, v)
  {
    hide *;
    SelectStep(cc, s, v);
    if s == [] {
      assert s + t == t;
    } else {
      SelectStep(cc, s + t, v);
      assert (s + t)[1..] == s[1..] + t;
      SelectConcat(cc, s[1..], t, v);
    }
  }

  lemma {:induction false} SelectNone(cc: Classes, s: seq<int>, v: nat)
    requires forall k :: 0 <= k < |s| ==> cc(s[k]) != v
    ensures Select(cc, s, v) == []
  {
    if s != [] {
      SelectNone(cc, s[1..], v);
    }
  }

  // ----- There is one canonical ordering -----

  lemma {:induction false} EndOfRun(cc: Classes, s: seq<int>, k: nat) returns (e: nat)
    requires k < |s|
    ensures k <= e <= |s| && RunEnd(cc, s, e) && forall m :: k <= m < e ==> cc(s[m]) != 0
    decreases |s| - k
  {
    e := k;
    while e < |s| && cc(s[e]) != 0
      invariant k <= e <= |s| && forall m :: k <= m < e ==> cc(s[m]) != 0
    {
      e := e + 1;
    }
  }

  /** In a run that is sorted the first class is the least. */
  lemma {:induction false} LeastFirst(cc: Classes, t: seq<int>, k: nat, m: nat)
    requires Ordered(cc, t) && k <= m < |t| && forall n :: k <= n <= m ==> cc(t[n]) != 0
    ensures cc(t[k]) <= cc(t[m])
    decreases m
  {
    if k < m {
      LeastFirst(cc, t, k, m - 1);
    }
  }

  lemma SelectDrop(cc: Classes, t: seq<int>, u: seq<int>, k: nat, e: nat, v: nat)
    requires k <= e <= |t| && e <= |u| && t[..k] == u[..k] && Select(cc, t[..e], v) == Select(cc, u[..e], v)
    ensures Select(cc, t[k..e], v) == Select(cc, u[k..e], v)
  {
    assert t[..e] == t[..k] + t[k..e] && u[..e] == u[..k] + u[k..e];
    SelectConcat(cc, t[..k], t[k..e], v);
    SelectConcat(cc, u[..k], u[k..e], v);
    var a, x, y := Select(cc, t[..k], v), Select(cc, t[k..e], v), Select(cc, u[k..e], v);
    assert (a + x)[|a|..] == x && (a + y)[|a|..] == y;
  }

  /** Where two orderings first differ, the class of neither is the smaller. */
  lemma NotSmaller(cc: Classes, s: seq<int>, t: seq<int>, u: seq<int>, k: nat, e: nat)
    requires SameStarters(cc, s, t) && SameStarters(cc, s, u) && Ordered(cc, u)
    requires k < e <= |s| && t[..k] == u[..k] && forall m :: k <= m < e ==> cc(s[m]) != 0
    requires SameSelect(cc, t[..e], u[..e])
    ensures cc(t[k]) >= cc(u[k])
  {
    var v := cc(t[k]);
    if v < cc(u[k]) {
      SelectDrop(cc, t, u, k, e, v);
      SelectFirst(cc, t[k..e]);
      NoneOf(cc, s, u, k, e, v);
    }
  }

  lemma SelectFirst(cc: Classes, s: seq<int>)
    requires s != []
    ensures Select(cc, s, cc(s[0])) != [] && Select(cc, s, cc(s[0]))[0] == s[0]
  {
  }

  /** A class below the first of a sorted run is not in it. */
  lemma NoneOf(cc: Classes, s: seq<int>, u: seq<int>, k: nat, e: nat, v: nat)
    requires SameStarters(cc, s, u) && Ordered(cc, u) && k < e <= |s|
    requires v < cc(u[k]) && forall m :: k <= m < e ==> cc(s[m]) != 0
    ensures Select(cc, u[k..e], v) == []
  {
    hide Select;
    RunAtLeast(cc, s, u, k, e);
    SelectNone(cc, u[k..e], v);
  }

  lemma RunAtLeast(cc: Classes, s: seq<int>, u: seq<int>, k: nat, e: nat)
    requires SameStarters(cc, s, u) && Ordered(cc, u) && k < e <= |s|
    requires forall m :: k <= m < e ==> cc(s[m]) != 0
    ensures forall m :: k <= m < e ==> cc(u[m]) >= cc(u[k])
  {
    forall m | k <= m < e ensures cc(u[m]) != 0 {
      assert cc(s[m]) != 0;
    }
    hide SameStarters, Ordered;
    forall m | k <= m < e ensures cc(u[m]) >= cc(u[k]) {
      LeastFirst(cc, u, k, m);
    }
  }

  lemma SameNext(cc: Classes, s: seq<int>, t: seq<int>, u: seq<int>, k: nat)
    requires Reordering(cc, s, t) && Reordering(cc, s, u) && k < |s| && t[..k] == u[..k]
    ensures t[k] == u[k]
  {
    if cc(s[k]) != 0 {
      var e := EndOfRun(cc, s, k);
      assert SameSelect(cc, s[..e], t[..e]) && SameSelect(cc, s[..e], u[..e]);
      SelectSame(cc, s[..e], t[..e], u[..e]);
      NotSmaller(cc, s, t, u, k, e);
      SelectSame(cc, s[..e], u[..e], t[..e]);
      NotSmaller(cc, s, u, t, k, e);
      SelectDrop(cc, t, u, k, e, cc(t[k]));
      SelectFirst(cc, t[k..e]);
      SelectFirst(cc, u[k..e]);
    }
  }

  lemma SelectSame(cc: Classes, s: seq<int>, t: seq<int>, u: seq<int>)
    requires SameSelect(cc, s, t) && SameSelect(cc, s, u)
    ensures SameSelect(cc, t, u)
  {
    forall v: nat ensures Select(cc, t, v) == Select(cc, u, v) {
      assert Select(cc, s, v) == Select(cc, t, v) && Select(cc, s, v) == Select(cc, u, v);
    }
  }

  lemma {:induction false} SamePrefix(cc: Classes, s: seq<int>, t: seq<int>, u: seq<int>, k: nat)
    requires Reordering(cc, s, t) && Reordering(cc, s, u) && k <= |s|
    ensures t[..k] == u[..k]
  {
    if k > 0 {
      SamePrefix(cc, s, t, u, k - 1);
      SameNext(cc, s, t, u, k - 1);
      assert t[..k] == t[..k - 1] + [t[k - 1]] && u[..k] == u[..k - 1] + [u[k - 1]];
    }
  }

  /** The canonical ordering of a text is unique. */
  lemma OrderingUnique(cc: Classes, s: seq<int>, t: seq<int>, u: seq<int>)
    requires Reordering(cc, s, t) && Reordering(cc, s, u)
    ensures t == u
  {
    SamePrefix(cc, s, t, u, |s|);
    assert t[..|s|] == t && u[..|s|] == u;
  }

  /** A text in canonical order is its own ordering, so ordering again changes nothing. */
  lemma OrderedStays(cc: Classes, s: seq<int>, t: seq<int>)
    requires Ordered(cc, s) && Reordering(cc, s, t)
    ensures t == s
  {
    assert Reordering(cc, s, s);
    OrderingUnique(cc, s, t, s);
  }

  // ----- sort_cc -----

  /** `t` is the run `r` sorted by class, equal classes in their old order. */
  ghost predicate SortedRun(cc: Classes, r: seq<int>, t: seq<int>) {
    && |r| == |t| && SameSelect(cc, r, t)
    && (forall k :: 0 <= k < |r| ==> cc(r[k]) != 0 && cc(t[k]) != 0)
    && Ascending(cc, t)
  }

  ghost predicate AllAbove(cc: Classes, s: seq<int>, v: nat) {
    forall k :: 0 <= k < |s| ==> cc(s[k]) > v
  }

  lemma NoneAbove(cc: Classes, s: seq<int>, v: nat)
    requires s == []
    ensures AllAbove(cc, s, v)
  {
  }

  /** The character `c` goes in before the characters of greater class. */
  lemma InsertInRun(cc: Classes, r: seq<int>, low: seq<int>, high: seq<int>, c: int)
    requires SortedRun(cc, r, low + high) && cc(c) != 0
    requires low == [] || cc(low[|low| - 1]) <= cc(c)
    requires AllAbove(cc, high, cc(c))
    ensures SortedRun(cc, r + [c], low + [c] + high)
  {
    var t, u := low + high, low + [c] + high;
    forall v: nat ensures Select(cc, r + [c], v) == Select(cc, u, v) {
      InsertSelect(cc, r, low, high, c, v);
    }
    InsertAscending(cc, low, high, c);
    hide Select, Ascending;
    forall k | 0 <= k < |u| ensures cc(u[k]) != 0 {
      if k < |low| {
        assert u[k] == t[k];
      } else if k > |low| {
        assert u[k] == t[k - 1];
      }
    }
  }

  lemma InsertSelect(cc: Classes, r: seq<int>, low: seq<int>, high: seq<int>, c: int, v: nat)
    requires SameSelect(cc, r, low + high) && AllAbove(cc, high, cc(c))
    ensures Select(cc, r + [c], v) == Select(cc, low + [c] + high, v)
  {
    assert Select(cc, r, v) == Select(cc, low + high, v);
    if v == cc(c) {
      SelectNone(cc, high, v);
    } else {
      SelectNone(cc, [c], v);
    }
    hide Select;
    SelectConcat(cc, r, [c], v);
    SelectConcat(cc, low, high, v);
    SelectConcat(cc, low + [c], high, v);
    SelectConcat(cc, low, [c], v);
  }

  ghost predicate Ascending(cc: Classes, t: seq<int>) {
    forall j, k :: 0 <= j < k < |t| ==> cc(t[j]) <= cc(t[k])
  }

  lemma InsertAscending(cc: Classes, low: seq<int>, high: seq<int>, c: int)
    requires Ascending(cc, low + high) && (low == [] || cc(low[|low| - 1]) <= cc(c))
    requires AllAbove(cc, high, cc(c))
    ensures Ascending(cc, low + [c] + high)
  {
    var t, u, n := low + high, low + [c] + high, |low|;
    forall k | 0 <= k < n ensures u[k] == t[k] && cc(t[k]) <= cc(c) {
      assert t[k] == low[k] && t[n - 1] == low[n - 1];
    }
    forall k | n < k < |u| ensures u[k] == t[k - 1] && cc(t[k - 1]) > cc(c) {
      assert u[k] == high[k - n - 1];
    }
  }

  /** A starter after an ordered text. */
  lemma AddStarter(cc: Classes, s: seq<int>, t: seq<int>, c: int)
    requires Reordering(cc, s, t) && cc(c) == 0
    ensures Reordering(cc, s + [c], t + [c])
  {
    assert s[..|s|] == s && t[..|t|] == t;
    forall k: nat | k <= |s| + 1 && RunEnd(cc, s + [c], k)
      ensures SameSelect(cc, (s + [c])[..k], (t + [c])[..k])
    {
      if k <= |s| {
        assert (s + [c])[..k] == s[..k] && (t + [c])[..k] == t[..k];
        assert RunEnd(cc, s, k);
      } else {
        assert (s + [c])[..k] == s + [c] && (t + [c])[..k] == t + [c];
        assert RunEnd(cc, s, |s|);
        SameSelectConcat(cc, s, t, [c], [c]);
      }
    }
  }

  lemma SameSelectConcat(cc: Classes, s: seq<int>, t: seq<int>, r: seq<int>, u: seq<int>)
    requires SameSelect(cc, s, t) && SameSelect(cc, r, u)
    ensures SameSelect(cc, s + r, t + u)
  {
    forall v: nat ensures Select(cc, s + r, v) == Select(cc, t + u, v) {
      SelectConcat(cc, s, r, v);
      SelectConcat(cc, t, u, v);
    }
  }

  /** A sorted run after a text that ends in a starter. */
  lemma AddRun(cc: Classes, s: seq<int>, t: seq<int>, r: seq<int>, u: seq<int>)
    requires Reordering(cc, s, t) && SortedRun(cc, r, u) && (t == [] || cc(t[|t| - 1]) == 0)
    ensures Reordering(cc, s + r, t + u)
  {
    assert s[..|s|] == s && t[..|t|] == t;
    forall k: nat | k <= |s + r| && RunEnd(cc, s + r, k)
      ensures SameSelect(cc, (s + r)[..k], (t + u)[..k])
    {
      if k <= |s| {
        assert (s + r)[..k] == s[..k] && (t + u)[..k] == t[..k];
        assert RunEnd(cc, s, k);
      } else {
        assert k == |s + r| && (s + r)[..k] == s + r && (t + u)[..k] == t + u;
        assert RunEnd(cc, s, |s|);
        SameSelectConcat(cc, s, t, r, u);
      }
    }
  }

  /** `s` with the characters from `k` to `j` one place up, over the one at `j`. */
  function Shifted(s: seq<int>, k: nat, j: nat): (t: seq<int>)
    requires k <= j < |s|
    ensures |t| == |s|
  {
    s[..k + 1] + s[k..j] + s[j + 1..]
  }

  lemma ShiftMore(s: seq<int>, k: nat, j: nat)
    requires 0 < k <= j < |s|
    ensures Shifted(s, k, j)[k - 1] == s[k - 1]
    ensures Shifted(s, k, j)[k := s[k - 1]] == Shifted(s, k - 1, j)
  {
  }

  lemma ShiftNone(s: seq<int>, j: nat)
    requires j < |s|
    ensures Shifted(s, j, j) == s
  {
  }

  lemma ShiftDone(s: seq<int>, start: nat, k: nat, j: nat, c: int)
    requires start <= k <= j < |s|
    ensures Shifted(s, k, j)[k := c][start..j + 1] == s[start..k] + [c] + s[k..j]
    ensures Shifted(s, k, j)[k := c][..start] == s[..start] && Shifted(s, k, j)[k := c][j + 1..] == s[j + 1..]
    ensures s[start..k] + s[k..j] == s[start..j]
    ensures start < k ==> s[start..k][k - start - 1] == s[k - 1]
  {
  }

  lemma GreaterFrom(cc: Classes, s: seq<int>, k: nat, j: nat, v: nat)
    requires 0 < k <= j <= |s| && cc(s[k - 1]) > v && AllAbove(cc, s[k..j], v)
    ensures AllAbove(cc, s[k - 1..j], v)
  {
    assert s[k - 1..j] == [s[k - 1]] + s[k..j];
  }

  /** The innermost loop: moves the character at `j` down over those of greater class. */
  method Insert(buf: array<int>, start: nat, j: nat, cc: Classes, ghost r: seq<int>)
    requires start < j < buf.Length && SortedRun(cc, r, buf[start..j]) && cc(buf[j]) != 0
    modifies buf
    ensures SortedRun(cc, r + [old(buf[j])], buf[start..j + 1])
    ensures buf[..start] == old(buf[..start]) && buf[j + 1..] == old(buf[j + 1..])
  {
    hide *;
    ghost var s := buf[..];
    var ch1 := buf[j];
    var cc1 := cc(ch1);
    var k := j - 1;
    ShiftNone(s, j);
    NoneAbove(cc, s[j..j], cc1);
    while k >= start && cc(buf[k]) > cc1
      invariant start - 1 <= k < j
      invariant buf[..] == Shifted(s, k + 1, j)
      invariant AllAbove(cc, s[k + 1..j], cc1)
      decreases k
    {
      ShiftMore(s, k + 1, j);
      assert buf[k] == buf[..][k] == s[k];
      GreaterFrom(cc, s, k + 1, j, cc1);
      buf[k + 1] := buf[k];
      k := k - 1;
    }
    if k >= start {
      ShiftMore(s, k + 1, j);
      assert buf[k] == buf[..][k] == s[k];
    }
    ShiftDone(s, start, k + 1, j, ch1);
    buf[k + 1] := ch1;
    ghost var t := buf[..];
    assert buf[start..j + 1] == t[start..j + 1] && buf[..start] == t[..start] && buf[j + 1..] == t[j + 1..];
    InsertInRun(cc, r, s[start..k + 1], s[k + 1..j], ch1);
  }

  /** Sorts the run that begins at `start` and returns its end. */
  method SortRun(buf: array<int>, start: nat, cc: Classes) returns (j: nat)
    requires start < buf.Length && cc(buf[start]) != 0
    modifies buf
    ensures start < j <= buf.Length && (j < buf.Length ==> cc(buf[j]) == 0)
    ensures SortedRun(cc, old(buf[start..])[..j - start], buf[start..j])
    ensures buf[..start] == old(buf[..start]) && buf[j..] == old(buf[start..])[j - start..]
  {
    hide *;
    ghost var s := buf[start..];
    j := start + 1;
    OneCharacter(cc, buf[start]);
    assert buf[start..j] == [buf[start]] == s[..1];
    while j < buf.Length && cc(buf[j]) != 0
      invariant start < j <= buf.Length
      invariant SortedRun(cc, s[..j - start], buf[start..j])
      invariant buf[..start] == old(buf[..start]) && buf[j..] == s[j - start..]
      decreases buf.Length - j
    {
      ghost var c := buf[j];
      assert c == buf[j..][0] == s[j - start];
      Insert(buf, start, j, cc, s[..j - start]);
      assert s[..j - start] + [c] == s[..j + 1 - start];
      j := j + 1;
    }
  }

  lemma OneCharacter(cc: Classes, c: int)
    requires cc(c) != 0
    ensures SortedRun(cc, [c], [c])
  {
  }

  /** The text up to `i` is in order and ends in a starter; the rest is untouched. */
  ghost predicate OrderedUpTo(cc: Classes, s: seq<int>, t: seq<int>, i: nat) {
    && i <= |s| == |t| && t[i..] == s[i..] && Reordering(cc, s[..i], t[..i])
    && (0 < i < |s| ==> cc(t[i - 1]) == 0)
  }

  lemma TakeRun(cc: Classes, s: seq<int>, t: seq<int>, u: seq<int>, i: nat, j: nat)
    requires OrderedUpTo(cc, s, t, i) && i < j <= |s| == |u|
    requires u[..i] == t[..i] && u[j..] == t[i..][j - i..] && SortedRun(cc, t[i..][..j - i], u[i..j])
    ensures Reordering(cc, s[..j], u[..j]) && u[j..] == s[j..]
  {
    hide Reordering, SortedRun;
    assert i > 0 ==> t[i - 1] == t[..i][i - 1];
    AddRun(cc, s[..i], t[..i], t[i..][..j - i], u[i..j]);
    assert s[..j] == s[..i] + s[i..][..j - i];
    assert u[..j] == u[..i] + u[i..j];
    assert s[j..] == s[i..][j - i..];
  }

  lemma TakeStarter(cc: Classes, s: seq<int>, t: seq<int>, i: nat)
    requires i < |s| == |t| && t[i..] == s[i..] && Reordering(cc, s[..i], t[..i]) && cc(t[i]) == 0
    ensures OrderedUpTo(cc, s, t, i + 1)
  {
    hide Reordering;
    assert t[i] == t[i..][0] == s[i];
    AddStarter(cc, s[..i], t[..i], s[i]);
    assert s[..i + 1] == s[..i] + [s[i]] && t[..i + 1] == t[..i] + [t[i]];
    assert t[i + 1..] == t[i..][1..] && s[i + 1..] == s[i..][1..];
  }

  lemma SortingStart(cc: Classes, s: seq<int>)
    ensures OrderedUpTo(cc, s, s, 0)
  {
  }

  lemma SortingEnd(cc: Classes, s: seq<int>, t: seq<int>)
    requires |s| == |t| && Reordering(cc, s[..|s|], t[..|t|])
    ensures Reordering(cc, s, t)
  {
    assert s[..|s|] == s && t[..|t|] == t;
  }

  lemma SortingParts(cc: Classes, s: seq<int>, t: seq<int>, i: nat)
    requires OrderedUpTo(cc, s, t, i)
    ensures i <= |s| == |t| && t[i..] == s[i..] && Reordering(cc, s[..i], t[..i])
  {
  }

  lemma AllSorting(cc: Classes, s: seq<int>, t: seq<int>)
    requires |s| == |t| && Reordering(cc, s[..|s|], t[..|t|])
    ensures OrderedUpTo(cc, s, t, |s|)
  {
  }

  /** `sort_cc`: the canonical ordering algorithm (D109). */
  method SortCc(buf: array<int>, cc: Classes)
    modifies buf
    ensures Reordering(cc, old(buf[..]), buf[..])
  {
    hide *;
    ghost var s := buf[..];
    var i: nat := 0;
    SortingStart(cc, s);
    while i < buf.Length
      invariant i <= buf.Length && OrderedUpTo(cc, s, buf[..], i)
      decreases buf.Length - i
    {
      SortingParts(cc, s, buf[..], i);
      if cc(buf[i]) != 0 {
        ghost var t := buf[..];
        assert t[i..] == buf[i..] && t[..i] == buf[..i];
        var j := SortRun(buf, i, cc);
        ghost var u := buf[..];
        assert u[..i] == buf[..i] && u[j..] == buf[j..] && u[i..j] == buf[i..j];
        TakeRun(cc, s, t, u, i, j);
        i := j;
      }
      if i < buf.Length {
        TakeStarter(cc, s, buf[..], i);
        i := i + 1;
      } else {
        AllSorting(cc, s, buf[..]);
      }
    }
    SortingParts(cc, s, buf[..], i);
    SortingEnd(cc, s, buf[..]);
  }

  // ----- Recomposition -----

  /** What two characters compose to, or 0. */
  type Composition = (int, int) -> int

  /** What the tables promise: classes fit in a byte, and what a starter composes to is a starter. */
  ghost predicate TablesOk(cc: Classes, compose: Composition) {
    && (forall c {:trigger cc(c)} :: cc(c) < 256)
    && (forall a, b {:trigger compose(a, b)} :: cc(a) == 0 && compose(a, b) != 0 ==> cc(compose(a, b)) == 0)
  }

  /** The last starter, or -1. */
  function LastStarter(cc: Classes, out: seq<int>): (p: int)
    ensures -1 <= p < |out| && (p >= 0 ==> cc(out[p]) == 0)
    ensures forall k :: p < k < |out| ==> cc(out[k]) != 0
  {
    if out == [] then -1
    else if cc(out[|out| - 1]) == 0 then |out| - 1
    else LastStarter(cc, out[..|out| - 1])
  }

  /** A character after position `p` blocks `c` from it (D115). */
  predicate Blocked(cc: Classes, out: seq<int>, p: int, c: int)
    requires -1 <= p
  {
    exists k :: p < k < |out| && (cc(out[k]) == 0 || cc(out[k]) >= cc(c))
  }

  /** The canonical composition algorithm (D117) on the text `rest` after `out`. */
  function Recomposed(cc: Classes, compose: Composition, out: seq<int>, rest: seq<int>): seq<int>
    decreases |rest|
  {
    if rest == [] then out
    else
      var c, p := rest[0], LastStarter(cc, out);
      if p >= 0 && !Blocked(cc, out, p, c) && compose(out[p], c) != 0 then
        Recomposed(cc, compose, out[p := compose(out[p], c)], rest[1..])
      else
        Recomposed(cc, compose, out + [c], rest[1..])
  }

  /** In an ordered text the last character decides whether anything blocks. */
  lemma LastDecides(cc: Classes, out: seq<int>, p: int, c: int)
    requires Ordered(cc, out) && -1 <= p < |out| - 1 && forall k :: p < k < |out| ==> cc(out[k]) != 0
    ensures Blocked(cc, out, p, c) == (cc(out[|out| - 1]) >= cc(c))
  {
    forall k | p < k < |out| ensures cc(out[k]) <= cc(out[|out| - 1]) {
      LeastFirst(cc, out, k, |out| - 1);
    }
  }

  lemma NothingBetween(cc: Classes, out: seq<int>, p: int, c: int)
    requires p == |out| - 1
    ensures !Blocked(cc, out, p, c)
  {
  }

  /** The search for the starter, which looks at one class only: the starter's position when `c` may compose
      with it, else -1. */
  method FindStarter(buf: array<int>, len: nat, c: int, cc: Classes) returns (p: int)
    requires len <= buf.Length && Ordered(cc, buf[..len]) && forall x {:trigger cc(x)} :: cc(x) < 256
    ensures -1 <= p < len
    ensures var s := LastStarter(cc, buf[..len]);
            p == if s >= 0 && !Blocked(cc, buf[..len], s, c) then s else -1
  {
    hide *;
    ghost var out := buf[..len];
    ghost var s := LastStarter(cc, out);
    if s == len - 1 {
      NothingBetween(cc, out, s, c);
    } else {
      LastDecides(cc, out, s, c);
    }
    var lastCc := cc(c);
    p := len - 1;
    while p >= 0
      invariant s <= p < len
      invariant lastCc == if p == len - 1 then cc(c) else 256
      invariant p < len - 1 ==> !Blocked(cc, out, s, c)
      decreases p
    {
      assert buf[p] == out[p];
      var k := cc(buf[p]);
      if k == 0 {
        return;
      }
      if k >= lastCc {
        return -1;
      }
      lastCc := 256;
      p := p - 1;
    }
  }

  lemma OrderedConcat(cc: Classes, out: seq<int>, rest: seq<int>)
    requires Ordered(cc, out + rest)
    ensures Ordered(cc, out)
  {
    forall k | 0 < k < |out| && cc(out[k]) != 0 ensures cc(out[k - 1]) <= cc(out[k]) {
      assert (out + rest)[k] == out[k];
    }
  }

  lemma UnblockedLast(cc: Classes, out: seq<int>, p: int, c: int)
    requires -1 <= p < |out| - 1 && !Blocked(cc, out, p, c)
    ensures 0 < cc(out[|out| - 1]) < cc(c)
  {
  }

  /** Taking `c` into the starter `p`, which becomes `d`, keeps the text in order. */
  lemma ComposeOrdered(cc: Classes, out: seq<int>, rest: seq<int>, p: nat, d: int)
    requires Ordered(cc, out + rest) && rest != [] && p < |out| && cc(d) == 0
    requires p < |out| - 1 ==> 0 < cc(out[|out| - 1]) < cc(rest[0])
    ensures Ordered(cc, out[p := d] + rest[1..])
  {
    var t, u, n := out + rest, out[p := d] + rest[1..], |out|;
    forall k | 0 < k < |u| && cc(u[k]) != 0 ensures cc(u[k - 1]) <= cc(u[k]) {
      if k < n {
        assert t[k] == u[k];
      } else {
        assert t[k + 1] == u[k] && t[n] == rest[0];
        if k > n {
          assert u[k - 1] == t[k];
        }
      }
    }
  }

  lemma Composite(cc: Classes, compose: Composition, a: int, b: int)
    requires TablesOk(cc, compose) && cc(a) == 0 && compose(a, b) != 0
    ensures cc(compose(a, b)) == 0
  {
  }

  lemma AppendOrdered(cc: Classes, out: seq<int>, rest: seq<int>)
    requires Ordered(cc, out + rest) && rest != []
    ensures Ordered(cc, out + [rest[0]] + rest[1..])
  {
    assert out + [rest[0]] + rest[1..] == out + rest;
  }

  /** The last loop of `unicode_normalize`, in place: the output never overtakes the input. */
  method Recompose(buf: array<int>, cc: Classes, compose: Composition) returns (len: nat)
    requires buf.Length > 0 && TablesOk(cc, compose) && Ordered(cc, buf[..])
    modifies buf
    ensures len <= buf.Length && buf[..len] == Recomposed(cc, compose, old(buf[..1]), old(buf[1..]))
  {
    hide *;
    ghost var s := buf[..];
    ghost var goal := Recomposed(cc, compose, s[..1], s[1..]);
    var i := 1;
    len := 1;
    assert buf[..1] + buf[1..] == s;
    while i < buf.Length
      invariant 1 <= len <= i <= buf.Length
      invariant Recomposed(cc, compose, buf[..len], buf[i..]) == goal
      invariant Ordered(cc, buf[..len] + buf[i..])
    {
      ghost var out, rest := buf[..len], buf[i..];
      assert rest[0] == buf[i] && buf[i + 1..] == rest[1..];
      OrderedConcat(cc, out, rest);
      SmallClasses(cc, compose);
      RecomposedStep(cc, compose, out, rest);
      var p := FindStarter(buf, len, buf[i], cc);
      if p >= 0 {
        assert out[p] == buf[p];
      }
      if p >= 0 && compose(buf[p], buf[i]) != 0 {
        if p < len - 1 {
          UnblockedLast(cc, out, p, rest[0]);
        }
        Composite(cc, compose, out[p], rest[0]);
        ComposeOrdered(cc, out, rest, p, compose(out[p], rest[0]));
        buf[p] := compose(buf[p], buf[i]);
        assert buf[..len] == out[p := buf[p]];
        assert buf[i + 1..] == rest[1..];
        i := i + 1;
      } else {
        AppendOrdered(cc, out, rest);
        buf[len] := buf[i];
        assert buf[..len + 1] == out + [rest[0]];
        assert buf[i + 1..] == rest[1..];
        len := len + 1;
        i := i + 1;
      }
    }
    assert buf[i..] == [];
    RecomposedEnd(cc, compose, buf[..len]);
  }

  lemma SmallClasses(cc: Classes, compose: Composition)
    requires TablesOk(cc, compose)
    ensures forall c {:trigger cc(c)} :: cc(c) < 256
  {
  }

  lemma RecomposedStep(cc: Classes, compose: Composition, out: seq<int>, rest: seq<int>)
    requires rest != []
    ensures var p := LastStarter(cc, out);
            Recomposed(cc, compose, out, rest)
            == if p >= 0 && !Blocked(cc, out, p, rest[0]) && compose(out[p], rest[0]) != 0
               then Recomposed(cc, compose, out[p := compose(out[p], rest[0])], rest[1..])
               else Recomposed(cc, compose, out + [rest[0]], rest[1..])
  {
  }

  lemma RecomposedEnd(cc: Classes, compose: Composition, out: seq<int>)
    ensures Recomposed(cc, compose, out, []) == out
  {
  }
}
