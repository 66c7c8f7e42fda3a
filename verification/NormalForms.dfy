/** The end of `unicode_normalize` (libunicode.c) and what its results are, said of the texts themselves: the ordering
    as the text without reorderable pairs that exchanges lead to, the composed form as one that compositions lead to
    and in which nothing is left to compose. */
module NormalForms {
  import opened Combining

  // ----- The ordering -----

  /** Two neighbours in the wrong order (D108). */
  predicate ReorderablePair(cc: Classes, s: seq<int>, k: nat) {
    k + 1 < |s| && cc(s[k]) > cc(s[k + 1]) > 0
  }

  /** An ordered text is one without reorderable pairs. */
  lemma OrderedLaw(cc: Classes, s: seq<int>)
    ensures Ordered(cc, s) <==> forall k: nat :: !ReorderablePair(cc, s, k)
  {
    if Ordered(cc, s) {
      forall k: nat ensures !ReorderablePair(cc, s, k) {
        if k + 1 < |s| {
          var m := k + 1;
          assert s[m] == s[k + 1];
        }
      }
    }
    if forall k: nat :: !ReorderablePair(cc, s, k) {
      forall k | 0 < k < |s| && cc(s[k]) != 0 ensures cc(s[k - 1]) <= cc(s[k]) {
        var m: nat := k - 1;
        assert !ReorderablePair(cc, s, m);
      }
    }
  }

  function Exchanged(s: seq<int>, k: nat): (t: seq<int>)
    requires k + 1 < |s|
    ensures |t| == |s|
  {
    s[k := s[k + 1]][k + 1 := s[k]]
  }

  lemma ExchangedPrefix(cc: Classes, s: seq<int>, k: nat, n: nat, v: nat)
    requires ReorderablePair(cc, s, k) && n <= |s| && (n <= k || k + 2 <= n)
    ensures Select(cc, Exchanged(s, k)[..n], v) == Select(cc, s[..n], v)
  {
    var t := Exchanged(s, k);
    if n <= k {
      assert t[..n] == s[..n];
    } else {
      var a, b, p, q := s[k], s[k + 1], s[..k], s[k + 2..n];
      assert s[..n] == p + ([a] + [b]) + q && t[..n] == p + ([b] + [a]) + q;
      SelectOne(cc, a, v);
      SelectOne(cc, b, v);
      SelectConcat(cc, p + ([a] + [b]), q, v);
      SelectConcat(cc, p, [a] + [b], v);
      SelectConcat(cc, [a], [b], v);
      SelectConcat(cc, p + ([b] + [a]), q, v);
      SelectConcat(cc, p, [b] + [a], v);
      SelectConcat(cc, [b], [a], v);
      hide Select;
    }
  }

  lemma SelectOne(cc: Classes, a: int, v: nat)
    ensures Select(cc, [a], v) == if cc(a) == v then [a] else []
  {
    assert [a][1..] == [];
  }

  /** Exchanging a reorderable pair does not change the ordering of the text. */
  lemma ExchangeLaw(cc: Classes, s: seq<int>, k: nat, t: seq<int>)
    requires ReorderablePair(cc, s, k)
    ensures Reordering(cc, Exchanged(s, k), t) <==> Reordering(cc, s, t)
  {
    var u := Exchanged(s, k);
    hide Select;
    if |t| == |s| {
      forall n: nat | n <= |s| && RunEnd(cc, s, n)
        ensures SameSelect(cc, s[..n], t[..n]) == SameSelect(cc, u[..n], t[..n])
      {
        forall v: nat ensures Select(cc, u[..n], v) == Select(cc, s[..n], v) {
          ExchangedPrefix(cc, s, k, n, v);
        }
      }
      assert forall n: nat :: n <= |s| ==> RunEnd(cc, s, n) == RunEnd(cc, u, n);
    }
  }

  // ----- The composed form -----

  /** Nothing blocks the character at `j` from the starter at `i` (D115). */
  predicate Unblocked(cc: Classes, s: seq<int>, i: nat, j: nat) {
    i < j < |s| && cc(s[i]) == 0 && forall k :: i < k < j ==> 0 < cc(s[k]) < cc(s[j])
  }

  /** One composition: the character at `j` is taken into the starter at `i`. */
  predicate ComposedAt(cc: Classes, compose: Composition, s: seq<int>, i: nat, j: nat, t: seq<int>) {
    && Unblocked(cc, s, i, j) && compose(s[i], s[j]) != 0
    && t == s[..i] + [compose(s[i], s[j])] + s[i + 1..j] + s[j + 1..]
  }

  ghost predicate Composes(cc: Classes, compose: Composition, s: seq<int>, t: seq<int>) {
    exists i: nat, j: nat :: ComposedAt(cc, compose, s, i, j, t)
  }

  /** A chain of compositions. */
  ghost predicate Chain(cc: Classes, compose: Composition, ch: seq<seq<int>>) {
    ch != [] && forall k :: 0 < k < |ch| ==> Composes(cc, compose, ch[k - 1], ch[k])
  }

  ghost predicate Derived(cc: Classes, compose: Composition, s: seq<int>, t: seq<int>) {
    exists ch :: Chain(cc, compose, ch) && ch[0] == s && ch[|ch| - 1] == t
  }

  /** No starter is followed by a character it composes with and that nothing blocks. */
  ghost predicate FullyComposed(cc: Classes, compose: Composition, t: seq<int>) {
    forall i: nat, j: nat :: Unblocked(cc, t, i, j) ==> compose(t[i], t[j]) == 0
  }

  /** Composing brings no new chance to compose with what was passed over: neither with a character in between nor
      with the starter before. */
  ghost predicate Stable(cc: Classes, compose: Composition) {
    && (forall a, b, x :: cc(a) == 0 && compose(a, b) != 0 && 0 < cc(x) < cc(b) && compose(a, x) == 0
          ==> compose(compose(a, b), x) == 0)
    && (forall z, a, b :: cc(z) == 0 && cc(a) == 0 && compose(z, a) == 0 && compose(a, b) != 0
          ==> compose(z, compose(a, b)) == 0)
  }

  lemma StepIsComposition(cc: Classes, compose: Composition, out: seq<int>, rest: seq<int>, p: nat)
    requires rest != [] && p == LastStarter(cc, out) && p < |out| && !Blocked(cc, out, p, rest[0])
    requires compose(out[p], rest[0]) != 0
    ensures ComposedAt(cc, compose, out + rest, p, |out|, out[p := compose(out[p], rest[0])] + rest[1..])
  {
    StepUnblocked(cc, out, rest, p);
    StepText(out, rest, p, compose(out[p], rest[0]));
    hide *;
    assert ComposedAt(cc, compose, out + rest, p, |out|, out[p := compose(out[p], rest[0])] + rest[1..]) by {
      ComposedIs(cc, compose, out + rest, p, |out|, out[p := compose(out[p], rest[0])] + rest[1..]);
    }
  }

  lemma ComposedIs(cc: Classes, compose: Composition, s: seq<int>, i: nat, j: nat, t: seq<int>)
    requires Unblocked(cc, s, i, j) && i < j < |s| && compose(s[i], s[j]) != 0
    requires t == s[..i] + [compose(s[i], s[j])] + s[i + 1..j] + s[j + 1..]
    ensures ComposedAt(cc, compose, s, i, j, t)
  {
  }

  lemma StepUnblocked(cc: Classes, out: seq<int>, rest: seq<int>, p: nat)
    requires rest != [] && p == LastStarter(cc, out) && p < |out| && !Blocked(cc, out, p, rest[0])
    ensures Unblocked(cc, out + rest, p, |out|)
  {
    var s, j := out + rest, |out|;
    forall k | p < k < j ensures 0 < cc(s[k]) < cc(s[j]) {
      assert s[k] == out[k];
    }
  }

  lemma StepText(out: seq<int>, rest: seq<int>, p: nat, d: int)
    requires rest != [] && p < |out|
    ensures var s, j := out + rest, |out|;
      && p < j < |s| && s[p] == out[p] && s[j] == rest[0]
      && out[p := d] + rest[1..] == s[..p] + [d] + s[p + 1..j] + s[j + 1..]
  {
    var s, j := out + rest, |out|;
    assert s[..p] == out[..p] && s[p + 1..j] == out[p + 1..] && s[j + 1..] == rest[1..];
    assert out[p := d] == out[..p] + [d] + out[p + 1..];
  }

  /** The composed form comes from the text by compositions. */
  lemma {:induction false} RecomposedDerived(cc: Classes, compose: Composition, out: seq<int>, rest: seq<int>)
    returns (ch: seq<seq<int>>)
    ensures Chain(cc, compose, ch) && ch[0] == out + rest && ch[|ch| - 1] == Recomposed(cc, compose, out, rest)
    decreases |rest|
  {
    hide ComposedAt, Recomposed, Blocked, LastStarter;
    if rest == [] {
      RecomposedEnd(cc, compose, out);
      ch := [out];
      assert out + rest == out;
    } else {
      RecomposedStep(cc, compose, out, rest);
      var c, p := rest[0], LastStarter(cc, out);
      if p >= 0 && !Blocked(cc, out, p, c) && compose(out[p], c) != 0 {
        ch := RecomposedDerived(cc, compose, out[p := compose(out[p], c)], rest[1..]);
        StepIsComposition(cc, compose, out, rest, p);
        assert Composes(cc, compose, out + rest, ch[0]);
        ch := [out + rest] + ch;
      } else {
        ch := RecomposedDerived(cc, compose, out + [c], rest[1..]);
        assert out + [c] + rest[1..] == out + rest;
      }
    }
  }

  /** Appending a character that the last starter does not take. */
  lemma AppendComposed(cc: Classes, compose: Composition, out: seq<int>, c: int)
    requires FullyComposed(cc, compose, out)
    requires var p := LastStarter(cc, out); p >= 0 && !Blocked(cc, out, p, c) ==> compose(out[p], c) == 0
    ensures FullyComposed(cc, compose, out + [c])
  {
    var t, p := out + [c], LastStarter(cc, out);
    forall i: nat, j: nat | Unblocked(cc, t, i, j) ensures compose(t[i], t[j]) == 0 {
      if j < |out| {
        forall k | i < k < j ensures 0 < cc(out[k]) < cc(out[j]) {
          assert t[k] == out[k];
        }
        assert Unblocked(cc, out, i, j);
      } else {
        forall k | i < k < |out| ensures 0 < cc(out[k]) < cc(c) {
          assert t[k] == out[k];
        }
        assert p == i;
      }
    }
  }

  lemma StableBetween(cc: Classes, compose: Composition, a: int, b: int, x: int)
    requires Stable(cc, compose) && cc(a) == 0 && compose(a, b) != 0 && 0 < cc(x) < cc(b) && compose(a, x) == 0
    ensures compose(compose(a, b), x) == 0
  {
  }

  lemma StableBefore(cc: Classes, compose: Composition, z: int, a: int, b: int)
    requires Stable(cc, compose) && cc(z) == 0 && cc(a) == 0 && compose(z, a) == 0 && compose(a, b) != 0
    ensures compose(z, compose(a, b)) == 0
  {
  }

  /** Taking a character into the last starter. */
  lemma TakeComposed(cc: Classes, compose: Composition, out: seq<int>, c: int, p: nat)
    requires FullyComposed(cc, compose, out) && TablesOk(cc, compose) && Stable(cc, compose)
    requires p == LastStarter(cc, out) && p < |out| && !Blocked(cc, out, p, c) && compose(out[p], c) != 0
    ensures FullyComposed(cc, compose, out[p := compose(out[p], c)])
  {
    var d := compose(out[p], c);
    var t := out[p := d];
    Composite(cc, compose, out[p], c);
    forall i: nat, j: nat | Unblocked(cc, t, i, j) ensures compose(t[i], t[j]) == 0 {
      if j < p {
        assert Unblocked(cc, out, i, j) by { SameBetween(cc, out, t, i, j, p); }
      } else if j == p {
        assert i == p - 1 by { NothingInside(cc, t, i, j); }
        assert Unblocked(cc, out, i, j);
        StableBefore(cc, compose, out[i], out[p], c);
      } else {
        StarterIs(cc, t, p, i, j);
        forall k | i < k < j ensures 0 < cc(out[k]) < cc(out[j]) {
          assert t[k] == out[k];
        }
        assert Unblocked(cc, out, i, j);
        assert 0 < cc(out[j]) < cc(c);
        StableBetween(cc, compose, out[p], c, out[j]);
      }
    }
  }

  /** Behind the last starter nothing else can take a character. */
  lemma StarterIs(cc: Classes, t: seq<int>, p: nat, i: nat, j: nat)
    requires p < j && Unblocked(cc, t, i, j) && cc(t[p]) == 0 && forall k :: p < k < |t| ==> cc(t[k]) != 0
    ensures i == p
  {
    assert !(i < p < j);
  }

  lemma SameBetween(cc: Classes, s: seq<int>, t: seq<int>, i: nat, j: nat, p: nat)
    requires |s| == |t| && Unblocked(cc, t, i, j) && j < p && forall k :: 0 <= k < |s| && k != p ==> t[k] == s[k]
    ensures Unblocked(cc, s, i, j)
  {
    forall k | i < k < j ensures 0 < cc(s[k]) < cc(s[j]) {
      assert t[k] == s[k];
    }
  }

  /** Only a neighbour is not blocked from a starter. */
  lemma NothingInside(cc: Classes, t: seq<int>, i: nat, j: nat)
    requires Unblocked(cc, t, i, j) && cc(t[j]) == 0
    ensures i == j - 1
  {
    NotBetween(cc, t, i, j, i + 1);
  }

  lemma NotBetween(cc: Classes, t: seq<int>, i: nat, j: nat, k: nat)
    requires Unblocked(cc, t, i, j) && cc(t[j]) == 0 && k < |t| && cc(t[k]) >= 0
    ensures !(i < k < j)
  {
  }

  /** With stable tables nothing is left to compose. */
  lemma {:induction false} RecomposedFully(cc: Classes, compose: Composition, out: seq<int>, rest: seq<int>)
    requires FullyComposed(cc, compose, out) && TablesOk(cc, compose) && Stable(cc, compose)
    ensures FullyComposed(cc, compose, Recomposed(cc, compose, out, rest))
    decreases |rest|
  {
    hide *;
    if rest == [] {
      RecomposedEnd(cc, compose, out);
    } else {
      RecomposedStep(cc, compose, out, rest);
      var c, p := rest[0], LastStarter(cc, out);
      if p >= 0 && !Blocked(cc, out, p, c) && compose(out[p], c) != 0 {
        TakeComposed(cc, compose, out, c, p);
        RecomposedFully(cc, compose, out[p := compose(out[p], c)], rest[1..]);
      } else {
        AppendComposed(cc, compose, out, c);
        RecomposedFully(cc, compose, out + [c], rest[1..]);
      }
    }
  }

  lemma OneComposed(cc: Classes, compose: Composition, out: seq<int>)
    requires |out| <= 1
    ensures FullyComposed(cc, compose, out)
  {
  }

  // ----- The condition is needed -----

  lemma ThreeRecomposed(cc: Classes, compose: Composition, a: int, x: int, b: int)
    requires cc(a) == 0 && compose(a, x) == 0
    ensures cc(x) == 0 && compose(x, b) != 0 ==> Recomposed(cc, compose, [a], [x, b]) == [a, compose(x, b)]
    ensures 0 < cc(x) < cc(b) && compose(a, b) != 0 ==> Recomposed(cc, compose, [a], [x, b]) == [compose(a, b), x]
  {
    var out, rest := [a], [x, b];
    assert rest[1..] == [b] && out + [x] == [a, x] && [b][1..] == [];
    RecomposedStep(cc, compose, out, rest);
    RecomposedStep(cc, compose, [a, x], [b]);
    LastOfTwo(cc, a, x);
    assert LastStarter(cc, [a]) == 0;
    assert [a, x][1 := compose(x, b)] == [a, compose(x, b)] && [a, x][0 := compose(a, b)] == [compose(a, b), x];
    RecomposedEnd(cc, compose, [a, compose(x, b)]);
    RecomposedEnd(cc, compose, [compose(a, b), x]);
    hide Recomposed;
  }

  lemma LastOfTwo(cc: Classes, a: int, x: int)
    requires cc(a) == 0
    ensures LastStarter(cc, [a, x]) == if cc(x) == 0 then 1 else 0
  {
    assert [a, x][..1] == [a];
  }

  /** The composed form of an ordered text. */
  ghost predicate AllFully(cc: Classes, compose: Composition) {
    forall t: seq<int> :: t != [] && Ordered(cc, t) ==>
      FullyComposed(cc, compose, Recomposed(cc, compose, t[..1], t[1..]))
  }

  lemma ThreeFully(cc: Classes, compose: Composition, a: int, x: int, b: int)
    requires AllFully(cc, compose) && cc(a) == 0 && (cc(x) != 0 ==> cc(x) <= cc(b))
    ensures FullyComposed(cc, compose, Recomposed(cc, compose, [a], [x, b]))
  {
    hide FullyComposed, Recomposed;
    var t := [a, x, b];
    assert t[..1] == [a] && t[1..] == [x, b];
    assert Ordered(cc, t);
  }

  lemma TwoFully(cc: Classes, compose: Composition, d: int, x: int)
    requires FullyComposed(cc, compose, [d, x]) && cc(d) == 0
    ensures compose(d, x) == 0
  {
    var t := [d, x];
    assert Unblocked(cc, t, 0, 1);
    assert compose(t[0], t[1]) == 0;
  }

  /** Every text comes out fully composed if and only if the tables are stable. */
  lemma StableCondition(cc: Classes, compose: Composition)
    requires TablesOk(cc, compose)
    ensures AllFully(cc, compose) <==> Stable(cc, compose)
  {
    if Stable(cc, compose) {
      hide Stable, TablesOk, FullyComposed, Recomposed;
      forall t: seq<int> | t != [] && Ordered(cc, t)
        ensures FullyComposed(cc, compose, Recomposed(cc, compose, t[..1], t[1..]))
      {
        OneComposed(cc, compose, t[..1]);
        RecomposedFully(cc, compose, t[..1], t[1..]);
      }
    }
    if AllFully(cc, compose) {
      FullyStable(cc, compose);
    }
  }

  lemma FullyStable(cc: Classes, compose: Composition)
    requires TablesOk(cc, compose) && AllFully(cc, compose)
    ensures Stable(cc, compose)
  {
    hide AllFully, FullyComposed, Recomposed;
    forall a, b, x | cc(a) == 0 && compose(a, b) != 0 && 0 < cc(x) < cc(b) && compose(a, x) == 0
      ensures compose(compose(a, b), x) == 0
    {
      ThreeFully(cc, compose, a, x, b);
      ThreeRecomposed(cc, compose, a, x, b);
      Composite(cc, compose, a, b);
      TwoFully(cc, compose, compose(a, b), x);
    }
    forall z, a, b | cc(z) == 0 && cc(a) == 0 && compose(z, a) == 0 && compose(a, b) != 0
      ensures compose(z, compose(a, b)) == 0
    {
      ThreeFully(cc, compose, z, a, b);
      ThreeRecomposed(cc, compose, z, a, b);
      TwoFully(cc, compose, z, compose(a, b));
    }
  }

  /** The normal form of a decomposed text, given its canonical ordering `t`. */
  function NormalForm(cc: Classes, compose: Composition, t: seq<int>, decomposed: bool): seq<int> {
    if |t| <= 1 || decomposed then t else Recomposed(cc, compose, t[..1], t[1..])
  }

  /** A letter and an accent it composes with: the decomposed form keeps them, the composed form joins them. */
  lemma AcuteForms(cc: Classes, compose: Composition)
    requires cc(0x65) == 0 && compose(0x65, 0x301) == 0xE9
    ensures NormalForm(cc, compose, [0x65, 0x301], true) == [0x65, 0x301]
    ensures NormalForm(cc, compose, [0x65, 0x301], false) == [0xE9]
  {
    var s := [0x65, 0x301];
    assert s[..1] == [0x65] && s[1..] == [0x301] && [0x65][0 := 0xE9] == [0xE9];
    assert LastStarter(cc, [0x65]) == 0;
  }

  /** What the composed form of an ordered text is. */
  lemma ComposedForm(cc: Classes, compose: Composition, t: seq<int>)
    requires TablesOk(cc, compose)
    ensures var r := NormalForm(cc, compose, t, false);
      Derived(cc, compose, t, r) && (Stable(cc, compose) ==> FullyComposed(cc, compose, r))
  {
    hide Stable, TablesOk, FullyComposed, Recomposed, Composes;
    var r := NormalForm(cc, compose, t, false);
    if |t| <= 1 {
      var ch := [t];
      assert Chain(cc, compose, ch) && ch[0] == t && ch[|ch| - 1] == r;
      OneComposed(cc, compose, t);
    } else {
      var ch := RecomposedDerived(cc, compose, t[..1], t[1..]);
      assert t[..1] + t[1..] == t;
      if Stable(cc, compose) {
        OneComposed(cc, compose, t[..1]);
        RecomposedFully(cc, compose, t[..1], t[1..]);
      }
    }
  }

  lemma ReorderingOrdered(cc: Classes, s: seq<int>, t: seq<int>)
    requires Reordering(cc, s, t)
    ensures Ordered(cc, t)
  {
  }

  /** The end of `unicode_normalize`: the decomposed text in `buf` is put in order and, for the composed forms,
      recomposed. The ordering `t` is the only one. The composed form comes from it by compositions, and with stable
      tables nothing is left to compose. */
  method Normalize(buf: array<int>, decomposed: bool, cc: Classes, compose: Composition) returns (len: nat)
    requires TablesOk(cc, compose)
    modifies buf
    ensures len <= buf.Length
    ensures decomposed ==> len == buf.Length && Reordering(cc, old(buf[..]), buf[..len])
    ensures !decomposed ==> exists t :: Reordering(cc, old(buf[..]), t) && Derived(cc, compose, t, buf[..len])
    ensures !decomposed && Stable(cc, compose) ==> FullyComposed(cc, compose, buf[..len])
    ensures exists t :: Reordering(cc, old(buf[..]), t) && buf[..len] == NormalForm(cc, compose, t, decomposed)
  {
    ghost var s := buf[..];
    SortCc(buf, cc);
    ghost var t := buf[..];
    ReorderingOrdered(cc, s, t);
    assert Reordering(cc, s, t);
    ComposedForm(cc, compose, t);
    hide Reordering, Ordered, Recomposed, TablesOk, Derived, FullyComposed, Stable;
    if buf.Length <= 1 || decomposed {
      len := buf.Length;
      assert buf[..len] == t;
    } else {
      assert buf[..1] == t[..1] && buf[1..] == t[1..];
      len := Recompose(buf, cc, compose);
    }
    assert buf[..len] == NormalForm(cc, compose, t, decomposed);
  }
}
