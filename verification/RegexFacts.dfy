/** Every outcome of a pattern is a legal state that has not moved against the direction of travel. */
module RegexFacts {
  import opened MatchInput
  import opened RegexSemantics

  predicate OkCap(inp: Input, c: int) {
    c == -1 || (0 <= c && inp.Boundary(c))
  }

  /** The position and every capture stand at character boundaries of the input. */
  ghost predicate Ok(e: Env, s: State) {
    && e.inp.Boundary(s.pos)
    && |s.caps| == 2 * e.groups
    && forall i :: 0 <= i < |s.caps| ==> OkCap(e.inp, s.caps[i])
  }

  ghost predicate AllOk(e: Env, back: bool, bound: nat, xs: seq<State>) {
    forall x :: x in xs ==> Ok(e, x) && Remaining(e.inp, back, x.pos) <= bound
  }

  lemma OneCharOk(inp: Input, n: Node, back: bool, p: nat)
    requires IsOneChar(n) && inp.Boundary(p)
    ensures var q := OneChar(inp, n, back, p);
            q == -1 || (0 <= q && inp.Boundary(q) && Remaining(inp, back, q) < Remaining(inp, back, p))
  {
    if back {
      if 0 < p { inp.NextPrev(p); }
    } else if p < |inp.units| {
      inp.PrevNext(p);
    }
  }

  lemma {:induction false} ResetOk(e: Env, s: State, first: nat, last: int)
    requires Ok(e, s)
    ensures Ok(e, State(s.pos, ResetCaps(s.caps, first, last)))
    decreases last - first
  {
    if first <= last {
      ResetOk(e, State(s.pos, SetCap(SetCap(s.caps, 2 * first, -1), 2 * first + 1, -1)), first + 1, last);
    }
  }

  lemma {:induction false} AllClosedOk(e: Env, back: bool, dir: bool, cap: nat, bound: nat, xs: seq<State>)
    requires AllOk(e, dir, bound, xs)
    ensures AllOk(e, dir, bound, AllClosed(back, cap, xs))
  {
    if xs != [] {
      assert xs[0] in xs;
      AllClosedOk(e, back, dir, cap, bound, xs[1..]);
    }
  }

  lemma {:induction false} OutcomesOk(e: Env, n: Node, back: bool, cap: nat, s: State)
    requires Ok(e, s)
    ensures AllOk(e, back, Remaining(e.inp, back, s.pos), Outcomes(e, n, back, cap, s))
    decreases n, 0, 0, 0, 0
  {
    match n
    case Char(_) => OneCharOk(e.inp, n, back, s.pos);
    case AnyChar(_) => OneCharOk(e.inp, n, back, s.pos);
    case Class(_) => OneCharOk(e.inp, n, back, s.pos);
    case Cat(_, _) => CatOk(e, n, back, cap, s);
    case Alt(a, b) =>
      OutcomesOk(e, a, back, cap, s);
      OutcomesOk(e, b, back, cap + Groups(a), s);
    case Capture(a) => CaptureOk(e, n, back, cap, s);
    case Look(_, _, _) => LookOk(e, n, back, cap, s);
    case Repeat(_, _, _, _) => RepeatOk(e, n, back, cap, s);
    case _ =>
  }

  lemma CatOk(e: Env, n: Node, back: bool, cap: nat, s: State)
    requires Ok(e, s) && n.Cat?
    ensures AllOk(e, back, Remaining(e.inp, back, s.pos), Outcomes(e, n, back, cap, s))
    decreases n, -1, 0, 0, 0
  {
    var a, b, r := n.left, n.right, Remaining(e.inp, back, s.pos);
    if back {
      OutcomesOk(e, b, back, cap + Groups(a), s);
      FromAllOk(e, a, back, cap, r, Outcomes(e, b, back, cap + Groups(a), s));
    } else {
      OutcomesOk(e, a, back, cap, s);
      FromAllOk(e, b, back, cap + Groups(a), r, Outcomes(e, a, back, cap, s));
    }
  }

  lemma CaptureOk(e: Env, n: Node, back: bool, cap: nat, s: State)
    requires Ok(e, s) && n.Capture?
    ensures AllOk(e, back, Remaining(e.inp, back, s.pos), Outcomes(e, n, back, cap, s))
    decreases n, -1, 0, 0, 0
  {
    OutcomesOk(e, n.body, back, cap + 1, Opened(back, cap, s));
    AllClosedOk(e, back, back, cap, Remaining(e.inp, back, s.pos),
                Outcomes(e, n.body, back, cap + 1, Opened(back, cap, s)));
  }

  lemma LookOk(e: Env, n: Node, back: bool, cap: nat, s: State)
    requires Ok(e, s) && n.Look?
    ensures AllOk(e, back, Remaining(e.inp, back, s.pos), Outcomes(e, n, back, cap, s))
    decreases n, -1, 0, 0, 0
  {
    OutcomesOk(e, n.body, n.behind, cap, s);
    var inner := Outcomes(e, n.body, n.behind, cap, s);
    if !n.negated && inner != [] {
      assert inner[0] in inner;
    }
  }

  lemma RepeatOk(e: Env, n: Node, back: bool, cap: nat, s: State)
    requires Ok(e, s) && n.Repeat?
    ensures AllOk(e, back, Remaining(e.inp, back, s.pos), Outcomes(e, n, back, cap, s))
    decreases n, -1, 0, 0, 0
  {
    var Repeat(a, min, max, greedy) := n;
    var s0 := if min == 0 then State(s.pos, ResetCaps(s.caps, cap, cap + Groups(a) - 1)) else s;
    ResetOk(e, s, cap, cap + Groups(a) - 1);
    if min > 0 {
      MandatoryOk(e, a, back, cap, min, s0);
    }
    var xs := if min <= 0 then [s0] else Mandatory(e, a, back, cap, min, s0);
    OptionalFromAllOk(e, a, back, cap, max - min, max == INFINITE, greedy, Remaining(e.inp, back, s.pos), xs);
  }

  lemma {:induction false} FromAllOk(e: Env, n: Node, back: bool, cap: nat, bound: nat, xs: seq<State>)
    requires AllOk(e, back, bound, xs)
    ensures AllOk(e, back, bound, FromAll(e, n, back, cap, xs))
    decreases n, 1, 0, 0, |xs|
  {
    if xs != [] {
      assert xs[0] in xs;
      OutcomesOk(e, n, back, cap, xs[0]);
      FromAllOk(e, n, back, cap, bound, xs[1..]);
    }
  }

  lemma {:induction false} MandatoryOk(e: Env, n: Node, back: bool, cap: nat, k: nat, s: State)
    requires Ok(e, s)
    ensures AllOk(e, back, Remaining(e.inp, back, s.pos), Mandatory(e, n, back, cap, k, s))
    decreases n, 2, k, 1, 0
  {
    if k > 0 {
      OutcomesOk(e, n, back, cap, s);
      MandatoryFromAllOk(e, n, back, cap, k - 1, Remaining(e.inp, back, s.pos), Outcomes(e, n, back, cap, s));
    }
  }

  lemma {:induction false} MandatoryFromAllOk(e: Env, n: Node, back: bool, cap: nat, k: nat, bound: nat, xs: seq<State>)
    requires AllOk(e, back, bound, xs)
    ensures AllOk(e, back, bound, MandatoryFromAll(e, n, back, cap, k, xs))
    decreases n, 2, k, 2, |xs|
  {
    if xs != [] {
      assert xs[0] in xs;
      MandatoryOk(e, n, back, cap, k, xs[0]);
      MandatoryFromAllOk(e, n, back, cap, k, bound, xs[1..]);
    }
  }

  lemma {:induction false} OptionalOk(e: Env, n: Node, back: bool, cap: nat, k: int, unbounded: bool, greedy: bool,
                                      s: State)
    requires Ok(e, s)
    ensures AllOk(e, back, Remaining(e.inp, back, s.pos), Optional(e, n, back, cap, k, unbounded, greedy, s))
    decreases n, 3, Remaining(e.inp, back, s.pos), 1, 0
  {
    if k > 0 || unbounded {
      var r := Remaining(e.inp, back, s.pos);
      OutcomesOk(e, n, back, cap, s);
      OptionalBelowOk(e, n, back, cap, k - 1, unbounded, greedy, r,
                      Advancing(e.inp, back, s.pos, Outcomes(e, n, back, cap, s)));
    }
  }

  lemma {:induction false} OptionalBelowOk(e: Env, n: Node, back: bool, cap: nat, k: int, unbounded: bool, greedy: bool,
                                           bound: nat, xs: seq<State>)
    requires forall x :: x in xs ==> Remaining(e.inp, back, x.pos) < bound
    requires AllOk(e, back, bound, xs)
    ensures AllOk(e, back, bound, OptionalBelow(e, n, back, cap, k, unbounded, greedy, bound, xs))
    decreases n, 3, bound, 0, |xs|
  {
    if xs != [] {
      assert xs[0] in xs;
      OptionalOk(e, n, back, cap, k, unbounded, greedy, xs[0]);
      OptionalBelowOk(e, n, back, cap, k, unbounded, greedy, bound, xs[1..]);
    }
  }

  lemma {:induction false} OptionalFromAllOk(e: Env, n: Node, back: bool, cap: nat, k: int, unbounded: bool,
                                             greedy: bool, bound: nat, xs: seq<State>)
    requires AllOk(e, back, bound, xs)
    ensures AllOk(e, back, bound, OptionalFromAll(e, n, back, cap, k, unbounded, greedy, xs))
    decreases n, 4, 0, 0, |xs|
  {
    if xs != [] {
      assert xs[0] in xs;
      OptionalOk(e, n, back, cap, k, unbounded, greedy, xs[0]);
      OptionalFromAllOk(e, n, back, cap, k, unbounded, greedy, bound, xs[1..]);
    }
  }

  lemma {:induction false} OptionalBelowIsFromAll(e: Env, n: Node, back: bool, cap: nat, k: int, unbounded: bool,
                                                  greedy: bool, bound: nat, xs: seq<State>)
    requires forall x :: x in xs ==> Remaining(e.inp, back, x.pos) < bound
    ensures OptionalBelow(e, n, back, cap, k, unbounded, greedy, bound, xs)
            == OptionalFromAll(e, n, back, cap, k, unbounded, greedy, xs)
    decreases |xs|
  {
    if xs != [] {
      OptionalBelowIsFromAll(e, n, back, cap, k, unbounded, greedy, bound, xs[1..]);
    }
  }

  /** An outcome in the input has advanced exactly when its position differs: the test
      `check_advance` makes. */
  lemma AdvancedIsMoved(e: Env, back: bool, s: State, x: State)
    requires Ok(e, s) && Ok(e, x) && Remaining(e.inp, back, x.pos) <= Remaining(e.inp, back, s.pos)
    ensures Advanced(e.inp, back, s.pos, x) <==> x.pos != s.pos
  {
  }
}
