/** How the machine enumerates outcomes: it delivers the first at an address, and each time it
    backtracks down to the entries it has added, the next. */
module RegexDelivery {
  import opened RegexSemantics
  import opened RegexMachine

  /** No enclosing lookahead among the entries: a match discards them all. */
  ghost predicate NoLook(k: seq<Saved>) {
    forall i :: 0 <= i < |k| ==> k[i].kind == SplitState || k[i].kind == GreedyQuantState
  }

  /** The state-stack entries left above the base after each delivery. */
  type Trail = seq<seq<Saved>>

  /** From `c` the machine arrives at `pc` with each of `xs` in turn, the stack as in `stk`, and
      when they are exhausted fails into the entries `k`. */
  ghost predicate Delivers(m: Machine, c: Config, xs: seq<State>, pc: int, stk: seq<int>, k: seq<Saved>, t: Trail)
    decreases |xs|
  {
    if xs == [] then Reaches(m, c, Fail(k))
    else
      && t != []
      && NoLook(t[0])
      && Reaches(m, c, Run(pc, xs[0], stk, k + t[0]))
      && Delivers(m, Fail(k + t[0]), xs[1..], pc, stk, k, t[1..])
  }

  lemma DeliversFrom(m: Machine, c: Config, d: Config, xs: seq<State>, pc: int, stk: seq<int>, k: seq<Saved>, t: Trail)
    requires Reaches(m, c, d) && Delivers(m, d, xs, pc, stk, k, t)
    ensures Delivers(m, c, xs, pc, stk, k, t)
  {
    if xs == [] {
      ReachesTrans(m, c, d, Fail(k));
    } else {
      ReachesTrans(m, c, d, Run(pc, xs[0], stk, k + t[0]));
    }
  }

  /** The first delivery and what is left after it. */
  lemma DeliversFirst(m: Machine, c: Config, xs: seq<State>, pc: int, stk: seq<int>, k: seq<Saved>, t: Trail)
    requires xs != [] && Delivers(m, c, xs, pc, stk, k, t)
    ensures t != [] && NoLook(t[0]) && Reaches(m, c, Run(pc, xs[0], stk, k + t[0]))
    ensures Delivers(m, Fail(k + t[0]), xs[1..], pc, stk, k, t[1..])
  {
    hide Reaches;
    hide NoLook;
  }

  lemma DeliversNone(m: Machine, k: seq<Saved>, pc: int, stk: seq<int>)
    ensures Delivers(m, Fail(k), [], pc, stk, k, [])
  {
    ReachesRefl(m, Fail(k));
  }

  lemma DeliversCons(m: Machine, c: Config, x: State, xs: seq<State>, pc: int, stk: seq<int>, k: seq<Saved>,
                     k1: seq<Saved>, t: Trail)
    requires NoLook(k1) && Reaches(m, c, Run(pc, x, stk, k + k1)) && Delivers(m, Fail(k + k1), xs, pc, stk, k, t)
    ensures Delivers(m, c, [x] + xs, pc, stk, k, [k1] + t)
  {
    var ys, u := [x] + xs, [k1] + t;
    assert ys[0] == x && ys[1..] == xs && u[0] == k1 && u[1..] == t;
  }

  lemma DeliversOne(m: Machine, c: Config, x: State, pc: int, stk: seq<int>, k: seq<Saved>)
    requires Reaches(m, c, Run(pc, x, stk, k))
    ensures Delivers(m, c, [x], pc, stk, k, [[]])
  {
    assert k + [] == k;
    DeliversNone(m, k, pc, stk);
    DeliversCons(m, c, x, [], pc, stk, k, [], []);
    var none: seq<Saved> := [];
    assert [x] + [] == [x] && [none] + [] == [none];
  }

  /** Outcomes delivered above the entries `k1`, then those `k1` itself leads to. */
  lemma {:induction false} DeliversAppend(m: Machine, c: Config, xs: seq<State>, ys: seq<State>,
                                          pc: int, stk: seq<int>, k: seq<Saved>, k1: seq<Saved>, t: Trail, u: Trail)
    returns (v: Trail)
    requires NoLook(k1)
    requires Delivers(m, c, xs, pc, stk, k + k1, t)
    requires Delivers(m, Fail(k + k1), ys, pc, stk, k, u)
    ensures Delivers(m, c, xs + ys, pc, stk, k, v)
    decreases |xs|
  {
    if xs == [] {
      assert xs + ys == ys;
      DeliversFrom(m, c, Fail(k + k1), ys, pc, stk, k, u);
      v := u;
    } else {
      assert xs + ys == [xs[0]] + (xs[1..] + ys);
      assert k + k1 + t[0] == k + (k1 + t[0]);
      v := DeliversAppend(m, Fail(k + k1 + t[0]), xs[1..], ys, pc, stk, k, k1, t[1..], u);
      DeliversCons(m, c, xs[0], xs[1..] + ys, pc, stk, k, k1 + t[0], v);
      v := [k1 + t[0]] + v;
    }
  }

  /** The first delivery at `pc` is passed on to the states `ys` it leads to; `zs` come after. */
  lemma DeliversHead(m: Machine, c: Config, x: State, ys: seq<State>, zs: seq<State>,
                     pc: int, stk: seq<int>, pc': int, stk': seq<int>, k: seq<Saved>, k1: seq<Saved>, t: Trail,
                       u: Trail)
    returns (v: Trail)
    requires NoLook(k1)
    requires Reaches(m, c, Run(pc, x, stk, k + k1))
    requires Delivers(m, Run(pc, x, stk, k + k1), ys, pc', stk', k + k1, t)
    requires Delivers(m, Fail(k + k1), zs, pc', stk', k, u)
    ensures Delivers(m, c, ys + zs, pc', stk', k, v)
  {
    v := DeliversAppend(m, Run(pc, x, stk, k + k1), ys, zs, pc', stk', k, k1, t, u);
    DeliversFrom(m, c, Run(pc, x, stk, k + k1), ys + zs, pc', stk', k, v);
  }
}
