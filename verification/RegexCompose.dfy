/** How the deliveries of pieces of code combine into the delivery of the code around them. */
module RegexCompose {
  import opened Bytes
  import opened Instructions
  import opened MatchInput
  import opened RegexSemantics
  import opened RegexFacts
  import opened RegexMachine
  import opened RegexDelivery
  import opened RegexOps

  /** At `pc` the machine passes straight on, whatever entries lie below. */
  ghost predicate Leads(m: Machine, pc: int, x: State, stk: seq<int>, pc': int, y: State, stk': seq<int>) {
    forall k: seq<Saved> :: Reaches(m, Run(pc, x, stk, k), Run(pc', y, stk', k))
  }

  lemma {:induction false} DeliversOn(m: Machine, c: Config, xs: seq<State>, ys: seq<State>,
                                      pc: int, stk: seq<int>, pc': int, stk': seq<int>, k: seq<Saved>, t: Trail)
    requires |xs| == |ys|
    requires forall i :: 0 <= i < |xs| ==> Leads(m, pc, xs[i], stk, pc', ys[i], stk')
    requires Delivers(m, c, xs, pc, stk, k, t)
    ensures Delivers(m, c, ys, pc', stk', k, t)
    decreases |xs|
  {
    if xs != [] {
      assert Leads(m, pc, xs[0], stk, pc', ys[0], stk');
      ReachesTrans(m, c, Run(pc, xs[0], stk, k + t[0]), Run(pc', ys[0], stk', k + t[0]));
      forall i | 0 <= i < |xs[1..]| ensures Leads(m, pc, xs[1..][i], stk, pc', ys[1..][i], stk') {
        assert Leads(m, pc, xs[i + 1], stk, pc', ys[i + 1], stk');
      }
      DeliversOn(m, Fail(k + t[0]), xs[1..], ys[1..], pc, stk, pc', stk', k, t[1..]);
    }
  }

  lemma GotoLeads(m: Machine, pc: nat, d: int, x: State, stk: seq<int>)
    requires CodeAt(m.bc, pc, [Goto(d)]) && IsOffset(d)
    ensures Leads(m, pc, x, stk, pc + 5 + d, x, stk)
  {
    hide Reaches;
    hide CodeAt;
    forall k: seq<Saved> ensures Reaches(m, Run(pc, x, stk, k), Run(pc + 5 + d, x, stk, k)) {
      AtGoto(m, pc, d, x, stk, k);
    }
  }

  lemma DeliversGoto(m: Machine, c: Config, xs: seq<State>, pc: nat, d: int, stk: seq<int>, k: seq<Saved>, t: Trail)
    requires CodeAt(m.bc, pc, [Goto(d)]) && IsOffset(d)
    requires Delivers(m, c, xs, pc, stk, k, t)
    ensures Delivers(m, c, xs, pc + 5 + d, stk, k, t)
  {
    hide *;
    forall i | 0 <= i < |xs| ensures Leads(m, pc, xs[i], stk, pc + 5 + d, xs[i], stk) {
      GotoLeads(m, pc, d, xs[i], stk);
    }
    DeliversOn(m, c, xs, xs, pc, stk, pc + 5 + d, stk, k, t);
  }

  lemma DeliversDrop(m: Machine, c: Config, xs: seq<State>, pc: nat, v: int, stk: seq<int>, k: seq<Saved>, t: Trail)
    requires CodeAt(m.bc, pc, [Drop])
    requires Delivers(m, c, xs, pc, stk + [v], k, t)
    ensures Delivers(m, c, xs, pc + 1, stk, k, t)
  {
    hide Reaches;
    hide CodeAt;
    hide Delivers;
    forall i | 0 <= i < |xs| ensures Leads(m, pc, xs[i], stk + [v], pc + 1, xs[i], stk) {
      forall k: seq<Saved> ensures Reaches(m, Run(pc, xs[i], stk + [v], k), Run(pc + 1, xs[i], stk, k)) {
        AtDrop(m, pc, v, xs[i], stk, k);
      }
    }
    DeliversOn(m, c, xs, xs, pc, stk + [v], pc + 1, stk, k, t);
  }

  lemma DeliversPush(m: Machine, c: Config, xs: seq<State>, pc: nat, v: int, stk: seq<int>, k: seq<Saved>, t: Trail)
    requires CodeAt(m.bc, pc, [PushI32(v)]) && IsU32(v)
    requires Delivers(m, c, xs, pc, stk, k, t)
    ensures Delivers(m, c, xs, pc + 5, stk + [v], k, t)
  {
    hide Reaches;
    hide CodeAt;
    hide Delivers;
    forall i | 0 <= i < |xs| ensures Leads(m, pc, xs[i], stk, pc + 5, xs[i], stk + [v]) {
      forall k: seq<Saved> ensures Reaches(m, Run(pc, xs[i], stk, k), Run(pc + 5, xs[i], stk + [v], k)) {
        AtPush(m, pc, v, xs[i], stk, k);
      }
    }
    DeliversOn(m, c, xs, xs, pc, stk, pc + 5, stk + [v], k, t);
  }

  lemma DeliversLoop(m: Machine, c: Config, xs: seq<State>, pc: nat, d: int, v: int, stk: seq<int>, k: seq<Saved>,
                     t: Trail)
    requires CodeAt(m.bc, pc, [Loop(d)]) && IsOffset(d)
    requires Delivers(m, c, xs, pc, stk + [v], k, t)
    ensures Delivers(m, c, xs, if v == 1 then pc + 5 else pc + 5 + d, stk + [v - 1], k, t)
  {
    hide Reaches;
    hide CodeAt;
    hide Delivers;
    var pc' := if v == 1 then pc + 5 else pc + 5 + d;
    forall i | 0 <= i < |xs| ensures Leads(m, pc, xs[i], stk + [v], pc', xs[i], stk + [v - 1]) {
      forall k: seq<Saved> ensures Reaches(m, Run(pc, xs[i], stk + [v], k), Run(pc', xs[i], stk + [v - 1], k)) {
        AtLoop(m, pc, d, v, xs[i], stk, k);
      }
    }
    DeliversOn(m, c, xs, xs, pc, stk + [v], pc', stk + [v - 1], k, t);
  }

  lemma {:induction false} AllClosedAt(back: bool, cap: nat, xs: seq<State>, i: nat)
    requires i < |xs|
    ensures AllClosed(back, cap, xs)[i] == Closed(back, cap, xs[i])
  {
    if i > 0 {
      AllClosedAt(back, cap, xs[1..], i - 1);
    }
  }

  lemma DeliversClose(m: Machine, c: Config, xs: seq<State>, back: bool, cap: nat, pc: nat, stk: seq<int>,
                      k: seq<Saved>, t: Trail)
    requires CodeAt(m.bc, pc, [if back then SaveStart(cap) else SaveEnd(cap)]) && cap < m.e.groups && cap < 256
    requires Delivers(m, c, xs, pc, stk, k, t)
    ensures Delivers(m, c, AllClosed(back, cap, xs), pc + 2, stk, k, t)
  {
    hide Reaches;
    hide CodeAt;
    hide Delivers;
    var ys := AllClosed(back, cap, xs);
    forall i | 0 <= i < |xs| ensures Leads(m, pc, xs[i], stk, pc + 2, ys[i], stk) {
      AllClosedAt(back, cap, xs, i);
      forall k: seq<Saved> ensures Reaches(m, Run(pc, xs[i], stk, k), Run(pc + 2, ys[i], stk, k)) {
        AtSave(m, pc, if back then SaveStart(cap) else SaveEnd(cap), xs[i], stk, k);
      }
    }
    DeliversOn(m, c, xs, ys, pc, stk, pc + 2, stk, k, t);
  }

  /** `check_advance` keeps exactly the outcomes that have advanced. */
  lemma {:induction false} DeliversCheck(m: Machine, c: Config, xs: seq<State>, back: bool, s: State,
                                         pc: nat, stk: seq<int>, k: seq<Saved>, t: Trail) returns (u: Trail)
    requires CodeAt(m.bc, pc, [CheckAdvance])
    requires Ok(m.e, s) && AllOk(m.e, back, Remaining(m.e.inp, back, s.pos), xs)
    requires Delivers(m, c, xs, pc, stk + [s.pos], k, t)
    ensures Delivers(m, c, Advancing(m.e.inp, back, s.pos, xs), pc + 1, stk, k, u)
    decreases |xs|
  {
    if xs == [] {
      u := [];
    } else {
      assert xs[0] in xs;
      AdvancedIsMoved(m.e, back, s, xs[0]);
      u := DeliversCheck(m, Fail(k + t[0]), xs[1..], back, s, pc, stk, k, t[1..]);
      AtCheckAdvance(m, pc, s.pos, xs[0], stk, k + t[0]);
      var ys := Advancing(m.e.inp, back, s.pos, xs[1..]);
      if xs[0].pos == s.pos {
        ReachesTrans(m, c, Run(pc, xs[0], stk + [s.pos], k + t[0]), Fail(k + t[0]));
        DeliversFrom(m, c, Fail(k + t[0]), ys, pc + 1, stk, k, u);
        assert Advancing(m.e.inp, back, s.pos, xs) == ys;
      } else {
        ReachesTrans(m, c, Run(pc, xs[0], stk + [s.pos], k + t[0]), Run(pc + 1, xs[0], stk, k + t[0]));
        DeliversCons(m, c, xs[0], ys, pc + 1, stk, k, t[0], u);
        u := [t[0]] + u;
      }
    }
  }

  /** A split: the outcomes of the branch taken first, then those of the other. */
  lemma DeliversSplit(m: Machine, c: Config, c1: Config, e: Saved, xs: seq<State>, ys: seq<State>,
                      pc: int, stk: seq<int>, k: seq<Saved>, t: Trail, u: Trail) returns (v: Trail)
    requires e.kind == SplitState && Reaches(m, c, c1)
    requires Delivers(m, c1, xs, pc, stk, k + [e], t)
    requires Delivers(m, Run(e.pc, State(e.pos, e.caps), e.stack, k), ys, pc, stk, k, u)
    ensures Delivers(m, c, xs + ys, pc, stk, k, v)
  {
    Backtrack(m, e, k);
    DeliversFrom(m, Fail(k + [e]), Run(e.pc, State(e.pos, e.caps), e.stack, k), ys, pc, stk, k, u);
    v := DeliversAppend(m, c1, xs, ys, pc, stk, k, [e], t, u);
    DeliversFrom(m, c, c1, xs + ys, pc, stk, k, v);
  }

  /** A lookahead whose body delivers `xs` above the lookahead's own entry. */
  lemma DeliversLook(m: Machine, c: Config, negated: bool, xs: seq<State>, pc: nat, s: State, stk: seq<int>,
                     k: seq<Saved>, t: Trail)
    returns (u: Trail)
    requires CodeAt(m.bc, pc, [Match])
    requires Delivers(m, c, xs, pc, stk, k + [Lookout(negated, pc + 1, s, stk)], t)
    ensures Delivers(m, c, if negated then When(xs == [], s) else if xs == [] then [] else [State(s.pos, xs[0].caps)],
                     pc + 1, stk, k, u)
  {
    var e := Lookout(negated, pc + 1, s, stk);
    u := [[]];
    if xs == [] {
      Backtrack(m, e, k);
      ReachesTrans(m, c, Fail(k + [e]), if negated then Run(pc + 1, s, stk, k) else Fail(k));
      if negated {
        DeliversOne(m, c, s, pc + 1, stk, k);
      }
    } else {
      var all := k + [e] + t[0];
      AtMatch(m, pc, xs[0], stk, all);
      Unwind(m, xs[0].caps, e, k, t[0]);
      var d := if negated then Fail(k) else Run(pc + 1, State(s.pos, xs[0].caps), stk, k);
      ReachesTrans(m, c, Run(pc, xs[0], stk, all), Succeed(xs[0].caps, all));
      ReachesTrans(m, c, Succeed(xs[0].caps, all), d);
      if !negated {
        DeliversOne(m, c, State(s.pos, xs[0].caps), pc + 1, stk, k);
      }
    }
  }
}
