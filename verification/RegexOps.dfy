/** What each instruction does to a running machine, one lemma an instruction. */
module RegexOps {
  import opened Bytes
  import opened Instructions
  import opened RegexSemantics
  import opened RegexCode
  import opened RegexMachine

  lemma AtChar(m: Machine, pc: nat, i: Instr, s: State, stk: seq<int>, k: seq<Saved>)
    requires IsCharInstr(i) && CodeAt(m.bc, pc, [i]) && Encodable(i) && s.pos <= |m.e.inp.units|
    ensures s.pos == |m.e.inp.units| ==> Reaches(m, Run(pc, s, stk, k), Fail(k))
    ensures s.pos < |m.e.inp.units| && CharTest(i, m.e.inp.CharAt(s.pos)) == Yes
            ==> Reaches(m, Run(pc, s, stk, k), Run(pc + Size(i), State(m.e.inp.Next(s.pos), s.caps), stk, k))
    ensures s.pos < |m.e.inp.units| && CharTest(i, m.e.inp.CharAt(s.pos)) == No
            ==> Reaches(m, Run(pc, s, stk, k), Fail(k))
  {
    hide CharTest;
    hide Decode;
    hide Size;
    hide Reaches;
    hide CodeAt;
    hide Step;
    hide GreedyScan;
    hide SameForward;
    hide SameBackward;
    StepAt(m, i, Run(pc, s, stk, k));
  }

  lemma AtGoto(m: Machine, pc: nat, d: int, s: State, stk: seq<int>, k: seq<Saved>)
    requires CodeAt(m.bc, pc, [Goto(d)]) && IsOffset(d)
    ensures Reaches(m, Run(pc, s, stk, k), Run(pc + 5 + d, s, stk, k))
  {
    hide Decode;
    hide CodeAt;
    hide Reaches;
    hide Step;
    StepAt(m, Goto(d), Run(pc, s, stk, k));
  }

  function Alternative(pc: int, s: State, stk: seq<int>): Saved {
    Saved(SplitState, pc, s.pos, s.caps, stk, 0)
  }

  lemma AtSplitNextFirst(m: Machine, pc: nat, d: int, s: State, stk: seq<int>, k: seq<Saved>)
    requires CodeAt(m.bc, pc, [SplitNextFirst(d)]) && IsOffset(d)
    ensures Reaches(m, Run(pc, s, stk, k), Run(pc + 5, s, stk, k + [Alternative(pc + 5 + d, s, stk)]))
  {
    hide Decode;
    hide CodeAt;
    hide Reaches;
    hide Step;
    StepAt(m, SplitNextFirst(d), Run(pc, s, stk, k));
  }

  lemma AtSplitGotoFirst(m: Machine, pc: nat, d: int, s: State, stk: seq<int>, k: seq<Saved>)
    requires CodeAt(m.bc, pc, [SplitGotoFirst(d)]) && IsOffset(d)
    ensures Reaches(m, Run(pc, s, stk, k), Run(pc + 5 + d, s, stk, k + [Alternative(pc + 5, s, stk)]))
  {
    hide Decode;
    hide CodeAt;
    hide Reaches;
    hide Step;
    StepAt(m, SplitGotoFirst(d), Run(pc, s, stk, k));
  }

  lemma AtSave(m: Machine, pc: nat, i: Instr, s: State, stk: seq<int>, k: seq<Saved>)
    requires i.SaveStart? || i.SaveEnd?
    requires CodeAt(m.bc, pc, [i]) && 0 <= i.group < m.e.groups && i.group < 256
    ensures Reaches(m, Run(pc, s, stk, k),
                    Run(pc + 2, State(s.pos, SetCap(s.caps, 2 * i.group + (if i.SaveStart? then 0 else 1), s.pos)),
                        stk, k))
  {
    hide Decode;
    hide CodeAt;
    hide Reaches;
    hide Step;
    StepAt(m, i, Run(pc, s, stk, k));
  }

  lemma AtSaveReset(m: Machine, pc: nat, first: nat, last: nat, s: State, stk: seq<int>, k: seq<Saved>)
    requires CodeAt(m.bc, pc, [SaveReset(first, last)]) && first < 256 && last < 256 && last < m.e.groups
    ensures Reaches(m, Run(pc, s, stk, k), Run(pc + 3, State(s.pos, ResetCaps(s.caps, first, last)), stk, k))
  {
    hide Decode;
    hide CodeAt;
    hide Reaches;
    hide Step;
    StepAt(m, SaveReset(first, last), Run(pc, s, stk, k));
  }

  lemma AtPush(m: Machine, pc: nat, v: int, s: State, stk: seq<int>, k: seq<Saved>)
    requires CodeAt(m.bc, pc, [PushI32(v)]) && IsU32(v)
    ensures Reaches(m, Run(pc, s, stk, k), Run(pc + 5, s, stk + [v], k))
  {
    hide Decode;
    hide CodeAt;
    hide Reaches;
    hide Step;
    StepAt(m, PushI32(v), Run(pc, s, stk, k));
  }

  lemma AtDrop(m: Machine, pc: nat, v: int, s: State, stk: seq<int>, k: seq<Saved>)
    requires CodeAt(m.bc, pc, [Drop])
    ensures Reaches(m, Run(pc, s, stk + [v], k), Run(pc + 1, s, stk, k))
  {
    hide Decode;
    hide CodeAt;
    hide Reaches;
    hide Step;
    StepAt(m, Drop, Run(pc, s, stk + [v], k));
    assert (stk + [v])[..|stk + [v]| - 1] == stk;
  }

  /** The counter on top of the stack is decremented; the jump is taken until it is 0. */
  lemma AtLoop(m: Machine, pc: nat, d: int, v: int, s: State, stk: seq<int>, k: seq<Saved>)
    requires CodeAt(m.bc, pc, [Loop(d)]) && IsOffset(d)
    ensures Reaches(m, Run(pc, s, stk + [v], k), Run(if v == 1 then pc + 5 else pc + 5 + d, s, stk + [v - 1], k))
  {
    hide Decode;
    hide CodeAt;
    hide Reaches;
    hide Step;
    StepAt(m, Loop(d), Run(pc, s, stk + [v], k));
    assert (stk + [v])[|stk + [v]| - 1 := v - 1] == stk + [v - 1];
  }

  lemma AtPushPos(m: Machine, pc: nat, s: State, stk: seq<int>, k: seq<Saved>)
    requires CodeAt(m.bc, pc, [PushCharPos])
    ensures Reaches(m, Run(pc, s, stk, k), Run(pc + 1, s, stk + [s.pos], k))
  {
    hide Decode;
    hide CodeAt;
    hide Reaches;
    hide Step;
    StepAt(m, PushCharPos, Run(pc, s, stk, k));
  }

  lemma AtCheckAdvance(m: Machine, pc: nat, v: int, s: State, stk: seq<int>, k: seq<Saved>)
    requires CodeAt(m.bc, pc, [CheckAdvance])
    ensures Reaches(m, Run(pc, s, stk + [v], k), if v == s.pos then Fail(k) else Run(pc + 1, s, stk, k))
  {
    hide Decode;
    hide CodeAt;
    hide Reaches;
    hide Step;
    StepAt(m, CheckAdvance, Run(pc, s, stk + [v], k));
    assert (stk + [v])[..|stk + [v]| - 1] == stk;
  }

  lemma AtMatch(m: Machine, pc: nat, s: State, stk: seq<int>, k: seq<Saved>)
    requires CodeAt(m.bc, pc, [Match])
    ensures Reaches(m, Run(pc, s, stk, k), Succeed(s.caps, k))
  {
    hide Decode;
    hide CodeAt;
    hide Reaches;
    hide Step;
    StepAt(m, Match, Run(pc, s, stk, k));
  }

  function Lookout(negated: bool, pc: int, s: State, stk: seq<int>): Saved {
    Saved(if negated then NegativeLookaheadState else LookaheadState, pc, s.pos, s.caps, stk, 0)
  }

  lemma AtLookahead(m: Machine, pc: nat, negated: bool, d: int, s: State, stk: seq<int>, k: seq<Saved>)
    requires CodeAt(m.bc, pc, [if negated then NegativeLookahead(d) else Lookahead(d)]) && IsOffset(d)
    ensures Reaches(m, Run(pc, s, stk, k), Run(pc + 5, s, stk, k + [Lookout(negated, pc + 5 + d, s, stk)]))
  {
    hide Decode;
    hide CodeAt;
    hide Reaches;
    hide Step;
    StepAt(m, if negated then NegativeLookahead(d) else Lookahead(d), Run(pc, s, stk, k));
  }

  /** Backtracking into the latest entry. */
  lemma Backtrack(m: Machine, e: Saved, k: seq<Saved>)
    requires e.kind != GreedyQuantState
    ensures Reaches(m, Fail(k + [e]),
                    if e.kind == LookaheadState then Fail(k) else Run(e.pc, State(e.pos, e.caps), e.stack, k))
  {
    ReachesStep(m, Fail(k + [e]));
    assert (k + [e])[..|k + [e]| - 1] == k;
  }

  /** A match inside a lookahead discards the entries above the lookahead's own. */
  lemma {:induction false} Unwind(m: Machine, caps: seq<int>, e: Saved, k: seq<Saved>, k1: seq<Saved>)
    requires forall i :: 0 <= i < |k1| ==> k1[i].kind == SplitState || k1[i].kind == GreedyQuantState
    requires e.kind == LookaheadState || e.kind == NegativeLookaheadState
    ensures Reaches(m, Succeed(caps, k + [e] + k1),
                    if e.kind == LookaheadState then Run(e.pc, State(e.pos, caps), e.stack, k) else Fail(k))
    decreases |k1|
  {
    var all := k + [e] + k1;
    ReachesStep(m, Succeed(caps, all));
    if k1 == [] {
      assert all[..|all| - 1] == k && all[|all| - 1] == e;
    } else {
      var k2 := k1[..|k1| - 1];
      assert all[..|all| - 1] == k + [e] + k2 && all[|all| - 1] == k1[|k1| - 1];
      Unwind(m, caps, e, k, k2);
      ReachesTrans(m, Succeed(caps, all), Succeed(caps, k + [e] + k2),
                   if e.kind == LookaheadState then Run(e.pc, State(e.pos, caps), e.stack, k) else Fail(k));
    }
  }

  /** With no lookahead pending the match is final. */
  lemma {:induction false} UnwindAll(m: Machine, caps: seq<int>, k1: seq<Saved>)
    requires forall i :: 0 <= i < |k1| ==> k1[i].kind == SplitState || k1[i].kind == GreedyQuantState
    ensures Reaches(m, Succeed(caps, k1), Done(true, caps))
    decreases |k1|
  {
    ReachesStep(m, Succeed(caps, k1));
    if k1 != [] {
      UnwindAll(m, caps, k1[..|k1| - 1]);
      ReachesTrans(m, Succeed(caps, k1), Succeed(caps, k1[..|k1| - 1]), Done(true, caps));
    }
  }
}
