/** The character loops of the back-reference instructions compare the captured text as a whole. */
module RegexBackRef {
  import opened MatchInput
  import opened RegexSemantics
  import opened RegexMachine

  /** Two slices agree exactly when both their parts do. */
  lemma SplitSlices(u: seq<unit>, a: nat, q: nat, d: nat, n: nat)
    requires d <= n && a + n <= |u| && q + n <= |u|
    ensures u[a..a + n] == u[q..q + n] <==> u[a..a + d] == u[q..q + d] && u[a + d..a + n] == u[q + d..q + n]
  {
    var x, y := u[a..a + n], u[q..q + n];
    assert x[..d] == u[a..a + d] && x[d..] == u[a + d..a + n] && x == x[..d] + x[d..];
    assert y[..d] == u[q..q + d] && y[d..] == u[q + d..q + n] && y == y[..d] + y[d..];
  }

  /** Equal characters are equal stretches of units; different ones differ within their stretch
      or are followed by different halves of a pair. */
  lemma CharSlices(inp: Input, a: nat, q: nat)
    requires a < |inp.units| && q < |inp.units|
    ensures inp.CharAt(a) == inp.CharAt(q)
            ==> inp.Next(a) - a == inp.Next(q) - q && inp.units[a..inp.Next(a)] == inp.units[q..inp.Next(q)]
    ensures inp.CharAt(a) != inp.CharAt(q) && inp.units[a] == inp.units[q] ==> inp.Pair(a) || inp.Pair(q)
    ensures inp.CharAt(a) != inp.CharAt(q) && inp.Pair(a) && inp.Pair(q) ==> inp.units[a..a + 2] != inp.units[q..q + 2]
  {
    if inp.Pair(a) && inp.Pair(q) {
      assert inp.units[a..a + 2] == [inp.units[a], inp.units[a + 1]];
      assert inp.units[q..q + 2] == [inp.units[q], inp.units[q + 1]];
    }
  }

  /** Text that agrees between character boundaries agrees in its first character. */
  lemma FirstChar(inp: Input, a: nat, q: nat, n: nat)
    requires 0 < n && a + n <= |inp.units| && q + n <= |inp.units|
    requires inp.Boundary(a + n) && inp.Boundary(q + n) && inp.units[a..a + n] == inp.units[q..q + n]
    ensures inp.CharAt(a) == inp.CharAt(q)
  {
    assert inp.units[a..a + n][0] == inp.units[q..q + n][0];
    if n > 1 {
      assert inp.units[a..a + n][1] == inp.units[q..q + n][1];
    }
  }

  /** Text that agrees between character boundaries agrees in its last character. */
  lemma LastChar(inp: Input, a: nat, q: nat, n: nat)
    requires 0 < n && a + n <= |inp.units| && q + n <= |inp.units|
    requires inp.Boundary(a) && inp.Boundary(q) && inp.Boundary(a + n) && inp.Boundary(q + n)
    requires inp.units[a..a + n] == inp.units[q..q + n]
    ensures inp.CharAt(inp.Prev(a + n)) == inp.CharAt(inp.Prev(q + n))
  {
    assert inp.units[a..a + n][n - 1] == inp.units[q..q + n][n - 1];
    if n > 1 {
      assert inp.units[a..a + n][n - 2] == inp.units[q..q + n][n - 2];
    }
  }

  lemma TextStep(inp: Input, a: nat, b: nat, q: nat, d: nat)
    requires 0 < d <= b - a && b <= |inp.units| && q + d <= |inp.units|
    requires inp.units[a..a + d] == inp.units[q..q + d] && inp.Boundary(q + d)
    ensures SameText(inp, false, a, b, q) == SameText(inp, false, a + d, b, q + d)
  {
    var u, n := inp.units, b - a;
    if q + n <= |u| {
      SplitSlices(u, a, q, d, n);
      assert a + n == b && q + d + (b - (a + d)) == q + n;
    }
  }

  lemma TextDiffers(inp: Input, a: nat, b: nat, q: nat)
    requires inp.Boundary(b) && a < b && q < |inp.units| && inp.CharAt(a) != inp.CharAt(q)
    ensures SameText(inp, false, a, b, q) == -1
  {
    if SameText(inp, false, a, b, q) >= 0 {
      FirstChar(inp, a, q, b - a);
    }
  }

  lemma {:induction false} ForwardIsSameText(inp: Input, a: nat, b: nat, q: nat)
    requires inp.Boundary(a) && inp.Boundary(b) && inp.Boundary(q)
    ensures SameForward(inp, a, b, q) == SameText(inp, false, a, b, q)
    decreases b - a
  {
    if a < b && q < |inp.units| {
      inp.PrevNext(a);
      inp.PrevNext(q);
      hide SameText;
      assert CharWithin(inp, a, b) == inp.CharAt(a) && NextWithin(inp, a, b) == inp.Next(a);
      if inp.CharAt(a) == inp.CharAt(q) {
        CharSlices(inp, a, q);
        TextStep(inp, a, b, q, inp.Next(a) - a);
        ForwardIsSameText(inp, inp.Next(a), b, inp.Next(q));
      } else {
        TextDiffers(inp, a, b, q);
      }
    }
  }

  lemma TextStepBack(inp: Input, a: nat, b: nat, q: nat, d: nat)
    requires 0 < d <= b - a && b <= |inp.units| && d <= q <= |inp.units|
    requires inp.units[b - d..b] == inp.units[q - d..q] && inp.Boundary(q - d)
    ensures SameText(inp, true, a, b, q) == SameText(inp, true, a, b - d, q - d)
  {
    hide Input.Boundary;
    var u, n: int := inp.units, b - a;
    if n <= q {
      SplitSlicesBack(u, a, b, q - n, q, d);
    }
  }

  lemma SplitSlicesBack(u: seq<unit>, a: nat, b: nat, p: nat, q: nat, d: nat)
    requires d <= b - a == q - p && b <= |u| && q <= |u|
    ensures u[a..b] == u[p..q] <==> u[a..b - d] == u[p..q - d] && u[b - d..b] == u[q - d..q]
  {
    SplitSlices(u, a, p, b - a - d, b - a);
  }

  lemma TextDiffersBack(inp: Input, a: nat, b: nat, q: nat)
    requires inp.Boundary(a) && inp.Boundary(b) && inp.Boundary(q) && a < b && 0 < q
    requires inp.CharAt(inp.Prev(b)) != inp.CharAt(inp.Prev(q))
    ensures SameText(inp, true, a, b, q) == -1
  {
    if SameText(inp, true, a, b, q) >= 0 {
      LastChar(inp, a, q - (b - a), b - a);
    }
  }

  lemma {:induction false} BackwardIsSameText(inp: Input, a: nat, b: nat, q: nat)
    requires inp.Boundary(a) && inp.Boundary(b) && inp.Boundary(q)
    ensures SameBackward(inp, a, b, q) == SameText(inp, true, a, b, q)
    decreases b
  {
    if a < b && 0 < q {
      inp.NextPrev(b);
      inp.NextPrev(q);
      hide SameText;
      var p, r := inp.Prev(b), inp.Prev(q);
      BackwardTurn(inp, a, b, q);
      hide SameBackward;
      if inp.CharAt(p) == inp.CharAt(r) {
        CharSlices(inp, p, r);
        TextStepBack(inp, a, b, q, b - p);
        BackwardIsSameText(inp, a, p, r);
      } else {
        TextDiffersBack(inp, a, b, q);
      }
    }
  }

  /** One turn of the comparison loop; the limits never cut a pair because they are boundaries. */
  lemma BackwardTurn(inp: Input, a: nat, b: nat, q: nat)
    requires inp.Boundary(a) && inp.Boundary(b) && inp.Boundary(q) && a < b && 0 < q
    ensures SameBackward(inp, a, b, q)
         == if inp.CharAt(inp.Prev(b)) != inp.CharAt(inp.Prev(q)) then -1
            else SameBackward(inp, a, inp.Prev(b), inp.Prev(q))
  {
    assert CharBeforeWithin(inp, b, a) == inp.CharAt(inp.Prev(b)) && PrevWithin(inp, b, a) == inp.Prev(b);
    assert CharBeforeWithin(inp, q, 0) == inp.CharAt(inp.Prev(q)) && PrevWithin(inp, q, 0) == inp.Prev(q);
  }
}
