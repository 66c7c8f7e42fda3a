/** Compiler correctness: the byte code of a pattern, run from any state, delivers the outcomes of
    the pattern in order. */
module RegexCorrect {
  import opened Bytes
  import opened Instructions
  import opened MatchInput
  import opened RegexSemantics
  import opened RegexFacts
  import opened RegexCode
  import opened RegexAnalysis
  import opened RegexMachine
  import opened RegexDelivery
  import opened RegexOps
  import opened RegexCompose
  import opened RegexGreedy
  import opened RegexBackRef

  /** The code of `n` stands at `pc` of a program that fits the `int` offsets of the source. */
  ghost predicate Placed(m: Machine, n: Node, back: bool, cap: nat, pc: nat) {
    && WellFormed(n)
    && cap + Groups(n) <= m.e.groups <= 255
    && |m.bc| < TWO_TO_THE_31
    && CodeAt(m.bc, pc, Code(n, back, cap))
  }

  function End(n: Node, back: bool, cap: nat, pc: nat): nat
    requires WellFormed(n)
  {
    pc + Length(Code(n, back, cap))
  }

  lemma PlacedOpen(m: Machine, n: Node, back: bool, cap: nat, pc: nat)
    requires Placed(m, n, back, cap, pc)
    ensures WellFormed(n) && cap + Groups(n) <= m.e.groups <= 255 && |m.bc| < TWO_TO_THE_31
    ensures CodeAt(m.bc, pc, Code(n, back, cap)) && End(n, back, cap, pc) == pc + Length(Code(n, back, cap)) <= |m.bc|
  {
    hide Code;
    hide Length;
    CodeFits(m.bc, pc, Code(n, back, cap));
    hide CodeAt;
  }

  lemma PlacedClose(m: Machine, n: Node, back: bool, cap: nat, pc: nat)
    requires WellFormed(n) && cap + Groups(n) <= m.e.groups <= 255 && |m.bc| < TWO_TO_THE_31
    requires CodeAt(m.bc, pc, Code(n, back, cap))
    ensures Placed(m, n, back, cap, pc) && End(n, back, cap, pc) == pc + Length(Code(n, back, cap))
  {
    hide Code;
    hide Length;
    hide CodeAt;
  }

  // ----- repeats -----

  /** The shapes of code around an optional iteration. */
  datatype Form = Skip | Once | Around(unbounded: bool) | Plus

  /** `head` is the branch, `body` the guarded atom, `exit` where the other branch leads and
      `final` where the whole is left. */
  datatype Shape = Shape(form: Form, check: bool, greedy: bool, head: nat, body: nat, exit: nat, final: nat)

  predicate Unbounded(sh: Shape) {
    sh.form == Around(true) || sh.form == Plus
  }

  /** The stack at the branch: the counter of a counted loop is on top. */
  function LoopStack(sh: Shape, v: int, stk: seq<int>): seq<int> {
    if sh.form == Around(false) then stk + [v] else stk
  }

  predicate CounterOk(sh: Shape, v: int) {
    match sh.form
    case Skip => v <= 0
    case Once => v == 1
    case Around(false) => v >= 1
    case _ => true
  }

  /** The address after the guarded atom. */
  ghost function Tail(n: Node, back: bool, cap: nat, sh: Shape): nat
    requires WellFormed(n)
  {
    sh.body + Length(Guarded(sh.check, Code(n, back, cap)))
  }

  /** The guarded atom stands at `body`; the check is left out only when the atom always moves. */
  ghost predicate AtomAt(m: Machine, n: Node, back: bool, cap: nat, sh: Shape) {
    && WellFormed(n) && cap + Groups(n) <= m.e.groups <= 255 && |m.bc| < TWO_TO_THE_31
    && CodeAt(m.bc, sh.body, Guarded(sh.check, Code(n, back, cap)))
    && (!sh.check ==> !MayStay(Code(n, back, cap)))
  }

  /** The branch stands at `head`. */
  ghost predicate BranchAt(m: Machine, sh: Shape) {
    && |m.bc| < TWO_TO_THE_31 && sh.exit <= |m.bc| && sh.body <= |m.bc| && sh.head + 5 <= |m.bc|
    && if sh.form == Plus
       then sh.exit == sh.head + 5 && CodeAt(m.bc, sh.head, [PlusBranch(sh.greedy, sh.body - (sh.head + 5))])
       else sh.body == sh.head + 5 && CodeAt(m.bc, sh.head, [Branch(sh.greedy, sh.exit - (sh.head + 5))])
  }

  /** The way back from `tail` to the branch, and the way out. */
  ghost predicate TailAt(m: Machine, sh: Shape, tail: nat) {
    match sh.form
    case Around(unb) =>
      && tail + 5 <= |m.bc| < TWO_TO_THE_31 && sh.head <= |m.bc| && sh.exit == tail + 5
      && CodeAt(m.bc, tail, [if unb then Goto(sh.head - (tail + 5)) else Instr.Loop(sh.head - (tail + 5))])
      && (!unb ==> CodeAt(m.bc, sh.exit, [Drop])) && sh.final == sh.exit + (if unb then 0 else 1)
    case Once => sh.exit == sh.final == tail
    case Plus => sh.head == tail && sh.exit == sh.final
    case Skip => true
  }

  ghost predicate ShapeAt(m: Machine, n: Node, back: bool, cap: nat, sh: Shape) {
    && WellFormed(n)
    && if sh.form == Skip then sh.head == sh.final
       else AtomAt(m, n, back, cap, sh) && BranchAt(m, sh) && TailAt(m, sh, Tail(n, back, cap, sh))
  }

  /** The branch tries the iteration first when greedy, the way out first when lazy. */
  lemma AtBranch(m: Machine, sh: Shape, s: State, stk: seq<int>, k: seq<Saved>)
    requires BranchAt(m, sh)
    ensures Reaches(m, Run(sh.head, s, stk, k),
                    Run(if sh.greedy then sh.body else sh.exit, s, stk,
                        k + [Alternative(if sh.greedy then sh.exit else sh.body, s, stk)]))
  {
    hide CodeAt;
    hide Reaches;
    var d := if sh.form == Plus then sh.body - (sh.head + 5) else sh.exit - (sh.head + 5);
    if (sh.form == Plus) == sh.greedy {
      AtSplitGotoFirst(m, sh.head, d, s, stk, k);
    } else {
      AtSplitNextFirst(m, sh.head, d, s, stk, k);
    }
  }

  /** The way out of the loop, past the drop of its counter. */
  lemma AtExit(m: Machine, sh: Shape, tail: nat, v: int, s: State, stk: seq<int>, k: seq<Saved>)
    requires TailAt(m, sh, tail) && sh.form != Skip
    ensures Reaches(m, Run(sh.exit, s, LoopStack(sh, v, stk), k), Run(sh.final, s, stk, k))
  {
    if sh.form == Around(false) {
      AtDrop(m, sh.exit, v, s, stk, k);
    } else {
      ReachesRefl(m, Run(sh.final, s, stk, k));
    }
  }

  /** `Optional` with its iterations listed by `OptionalFromAll`. */
  function More(e: Env, n: Node, back: bool, cap: nat, v: int, unb: bool, greedy: bool, s: State): seq<State> {
    OptionalFromAll(e, n, back, cap, v - 1, unb, greedy, Advancing(e.inp, back, s.pos, Outcomes(e, n, back, cap, s)))
  }

  lemma OptionalUnfold(e: Env, n: Node, back: bool, cap: nat, v: int, unb: bool, greedy: bool, s: State)
    requires v > 0 || unb
    ensures Optional(e, n, back, cap, v, unb, greedy, s)
         == if greedy then More(e, n, back, cap, v, unb, greedy, s) + [s]
            else [s] + More(e, n, back, cap, v, unb, greedy, s)
  {
    var xs := Advancing(e.inp, back, s.pos, Outcomes(e, n, back, cap, s));
    hide Outcomes;
    hide Advancing;
    OptionalBelowIsFromAll(e, n, back, cap, v - 1, unb, greedy, Remaining(e.inp, back, s.pos), xs);
  }

  lemma {:induction false} AdvancingOk(e: Env, back: bool, p: nat, bound: nat, xs: seq<State>)
    requires AllOk(e, back, bound, xs)
    ensures AllOk(e, back, bound, Advancing(e.inp, back, p, xs))
  {
  }

  /** The atom with its advance check delivers the outcomes that advance. */
  lemma GuardedCorrect(m: Machine, n: Node, back: bool, cap: nat, sh: Shape, s: State, stk: seq<int>, k: seq<Saved>)
    returns (t: Trail)
    requires AtomAt(m, n, back, cap, sh) && Ok(m.e, s)
    ensures Delivers(m, Run(sh.body, s, stk, k), Advancing(m.e.inp, back, s.pos, Outcomes(m.e, n, back, cap, s)),
                     Tail(n, back, cap, sh), stk, k, t)
    decreases n, 2, 0, 1, 0
  {
    hide *;
    GuardedOpen(m, n, back, cap, sh);
    if sh.check {
      t := CheckedCorrect(m, n, back, cap, sh.body, s, stk, k);
    } else {
      t := NodeCorrect(m, n, back, cap, sh.body, s, stk, k);
      AdvanceMeaning(m.e, n, back, cap, s);
      AdvancingAll(m.e.inp, back, s.pos, Outcomes(m.e, n, back, cap, s));
    }
  }

  /** Where the parts of a checked atom stand. */
  lemma GuardedOpen(m: Machine, n: Node, back: bool, cap: nat, sh: Shape)
    requires AtomAt(m, n, back, cap, sh)
    ensures WellFormed(n) && cap + Groups(n) <= m.e.groups <= 255 && |m.bc| < TWO_TO_THE_31
    ensures sh.check ==> CodeAt(m.bc, sh.body, Guarded(true, Code(n, back, cap)))
    ensures sh.check ==> Tail(n, back, cap, sh) == sh.body + Length(Guarded(true, Code(n, back, cap)))
    ensures !sh.check ==> !MayStay(Code(n, back, cap)) && Placed(m, n, back, cap, sh.body)
    ensures !sh.check ==> Tail(n, back, cap, sh) == End(n, back, cap, sh.body)
  {
    hide Code;
    hide CodeAt;
    hide MayStay;
    hide Length;
  }

  lemma CheckedParts(bc: seq<byte>, pc: nat, c: seq<Instr>)
    requires CodeAt(bc, pc, Guarded(true, c))
    ensures CodeAt(bc, pc, [PushCharPos]) && CodeAt(bc, pc + 1, c) && CodeAt(bc, pc + 1 + Length(c), [CheckAdvance])
    ensures Length(Guarded(true, c)) == Length(c) + 2
  {
    hide *;
    GuardedIs(c);
    CodeSplit3(bc, pc, [PushCharPos], c, [CheckAdvance]);
    Sizes(PushCharPos);
    Sizes(CheckAdvance);
  }

  lemma GuardedIs(c: seq<Instr>)
    ensures Guarded(true, c) == [PushCharPos] + c + [CheckAdvance]
  {
  }

  lemma CheckedCorrect(m: Machine, n: Node, back: bool, cap: nat, pc: nat, s: State, stk: seq<int>, k: seq<Saved>)
    returns (t: Trail)
    requires WellFormed(n) && cap + Groups(n) <= m.e.groups <= 255 && |m.bc| < TWO_TO_THE_31 && Ok(m.e, s)
    requires CodeAt(m.bc, pc, Guarded(true, Code(n, back, cap)))
    ensures Delivers(m, Run(pc, s, stk, k), Advancing(m.e.inp, back, s.pos, Outcomes(m.e, n, back, cap, s)),
                     pc + Length(Guarded(true, Code(n, back, cap))), stk, k, t)
    decreases n, 2, 0, 0, 0
  {
    hide Outcomes;
    hide Code;
    hide Delivers;
    hide Ok;
    hide CodeAt;
    hide Length;
    hide Guarded;
    hide Reaches;
    hide Advancing;
    var c, xs := Code(n, back, cap), Outcomes(m.e, n, back, cap, s);
    CheckedParts(m.bc, pc, c);
    AtPushPos(m, pc, s, stk, k);
    t := NodeCorrect(m, n, back, cap, pc + 1, s, stk + [s.pos], k);
    DeliversFrom(m, Run(pc, s, stk, k), Run(pc + 1, s, stk + [s.pos], k), xs, pc + 1 + Length(c), stk + [s.pos], k, t);
    OutcomesOk(m.e, n, back, cap, s);
    t := DeliversCheck(m, Run(pc, s, stk, k), xs, back, s, pc + 1 + Length(c), stk, k, t);
  }

  /** Going back to the branch after an iteration, with the counter one lower; at 0, out. */
  lemma BackToBranch(m: Machine, sh: Shape, tail: nat, v: int, c: Config, xs: seq<State>, stk: seq<int>, k: seq<Saved>,
                     t: Trail)
    requires TailAt(m, sh, tail) && CounterOk(sh, v) && sh.form != Skip
    requires Delivers(m, c, xs, tail, LoopStack(sh, v, stk), k, t)
    ensures if sh.form == Once || (sh.form == Around(false) && v == 1)
            then Delivers(m, c, xs, sh.final, stk, k, t)
            else Delivers(m, c, xs, sh.head, LoopStack(sh, v - 1, stk), k, t)
  {
    hide Delivers;
    hide CodeAt;
    if sh.form == Around(false) {
      DeliversLoop(m, c, xs, tail, sh.head - (tail + 5), v, stk, k, t);
      if v == 1 {
        DeliversDrop(m, c, xs, sh.exit, 0, stk, k, t);
      }
    } else if sh.form == Around(true) {
      DeliversGoto(m, c, xs, tail, sh.head - (tail + 5), stk, k, t);
    }
  }

  /** One more iteration and everything after it. */
  lemma OptionalIteration(m: Machine, n: Node, back: bool, cap: nat, sh: Shape, v: int, s: State, stk: seq<int>,
                          k: seq<Saved>)
    returns (t: Trail)
    requires ShapeAt(m, n, back, cap, sh) && CounterOk(sh, v) && sh.form != Skip && Ok(m.e, s)
    ensures Delivers(m, Run(sh.body, s, LoopStack(sh, v, stk), k),
                     More(m.e, n, back, cap, v, Unbounded(sh), sh.greedy, s),
                     sh.final, stk, k, t)
    decreases n, 3, Remaining(m.e.inp, back, s.pos), 1, 0
  {
    hide Outcomes;
    hide Code;
    hide Delivers;
    hide Advancing;
    hide Tail;
    hide TailAt;
    hide AtomAt;
    hide BranchAt;
    hide OptionalFromAll;
    hide LoopStack;
    hide Ok;
    var e, r, c := m.e, Remaining(m.e.inp, back, s.pos), Run(sh.body, s, LoopStack(sh, v, stk), k);
    var xs := Advancing(e.inp, back, s.pos, Outcomes(e, n, back, cap, s));
    t := GuardedCorrect(m, n, back, cap, sh, s, LoopStack(sh, v, stk), k);
    BackToBranch(m, sh, Tail(n, back, cap, sh), v, c, xs, stk, k, t);
    if sh.form == Once || (sh.form == Around(false) && v == 1) {
      FromNone(e, n, back, cap, sh.greedy, xs);
    } else {
      OutcomesOk(e, n, back, cap, s);
      AdvancingOk(e, back, s.pos, r, Outcomes(e, n, back, cap, s));
      t := OptionalBind(m, n, back, cap, sh, v - 1, r, c, xs, stk, k, t);
    }
  }

  lemma {:induction false} OptionalBind(m: Machine, n: Node, back: bool, cap: nat, sh: Shape, v: int, bound: nat,
                                        c: Config, xs: seq<State>, stk: seq<int>, k: seq<Saved>, t: Trail)
    returns (u: Trail)
    requires ShapeAt(m, n, back, cap, sh) && CounterOk(sh, v)
    requires forall x :: x in xs ==> Ok(m.e, x) && Remaining(m.e.inp, back, x.pos) < bound
    requires Delivers(m, c, xs, sh.head, LoopStack(sh, v, stk), k, t)
    ensures Delivers(m, c, OptionalFromAll(m.e, n, back, cap, v, Unbounded(sh), sh.greedy, xs), sh.final, stk, k, u)
    decreases n, 3, bound, 0, |xs|
  {
    hide Optional;
    hide ShapeAt;
    hide Ok;
    if xs == [] {
      u := [];
    } else {
      assert xs[0] in xs;
      var x, rest := xs[0], OptionalFromAll(m.e, n, back, cap, v, Unbounded(sh), sh.greedy, xs[1..]);
      var t1 := OptionalCorrect(m, n, back, cap, sh, v, x, stk, k + t[0]);
      var t2 := OptionalBind(m, n, back, cap, sh, v, bound, Fail(k + t[0]), xs[1..], stk, k, t[1..]);
      u := DeliversHead(m, c, x, Optional(m.e, n, back, cap, v, Unbounded(sh), sh.greedy, x), rest,
                        sh.head, LoopStack(sh, v, stk), sh.final, stk, k, t[0], t1, t2);
    }
  }

  /** From the branch, the machine delivers the optional iterations in order. */
  lemma OptionalCorrect(m: Machine, n: Node, back: bool, cap: nat, sh: Shape, v: int, s: State, stk: seq<int>,
                        k: seq<Saved>)
    returns (t: Trail)
    requires ShapeAt(m, n, back, cap, sh) && CounterOk(sh, v) && Ok(m.e, s)
    ensures Delivers(m, Run(sh.head, s, LoopStack(sh, v, stk), k),
                     Optional(m.e, n, back, cap, v, Unbounded(sh), sh.greedy, s), sh.final, stk, k, t)
    decreases n, 3, Remaining(m.e.inp, back, s.pos), 2, 0
  {
    hide Delivers;
    hide More;
    hide Ok;
    hide AtomAt;
    hide BranchAt;
    hide TailAt;
    hide Tail;
    if sh.form == Skip {
      ReachesRefl(m, Run(sh.head, s, stk, k));
      DeliversOne(m, Run(sh.head, s, stk, k), s, sh.final, stk, k);
      t := [[]];
    } else {
      hide LoopStack;
      var stkv, c := LoopStack(sh, v, stk), Run(sh.head, s, LoopStack(sh, v, stk), k);
      OptionalUnfold(m.e, n, back, cap, v, Unbounded(sh), sh.greedy, s);
      hide Optional;
      var more := More(m.e, n, back, cap, v, Unbounded(sh), sh.greedy, s);
      AtBranch(m, sh, s, stkv, k);
      if sh.greedy {
        var e := Alternative(sh.exit, s, stkv);
        t := OptionalIteration(m, n, back, cap, sh, v, s, stk, k + [e]);
        AtExit(m, sh, Tail(n, back, cap, sh), v, s, stk, k);
        DeliversOne(m, Run(sh.exit, s, stkv, k), s, sh.final, stk, k);
        t := DeliversSplit(m, c, Run(sh.body, s, stkv, k + [e]), e, more, [s], sh.final, stk, k, t, [[]]);
      } else {
        var e := Alternative(sh.body, s, stkv);
        t := OptionalIteration(m, n, back, cap, sh, v, s, stk, k);
        AtExit(m, sh, Tail(n, back, cap, sh), v, s, stk, k + [e]);
        DeliversOne(m, Run(sh.exit, s, stkv, k + [e]), s, sh.final, stk, k + [e]);
        t := DeliversSplit(m, c, Run(sh.exit, s, stkv, k + [e]), e, [s], more, sh.final, stk, k, [[]], t);
      }
    }
  }

  // ----- the other constructs -----

  lemma CharCorrect(m: Machine, n: Node, back: bool, cap: nat, pc: nat, s: State, stk: seq<int>, k: seq<Saved>)
    returns (t: Trail)
    requires Placed(m, n, back, cap, pc) && Ok(m.e, s) && IsOneChar(n)
    ensures Delivers(m, Run(pc, s, stk, k), Outcomes(m.e, n, back, cap, s), End(n, back, cap, pc), stk, k, t)
  {
    hide *;
    CharPlaced(m, n, back, cap, pc);
    CharOutcomes(m.e, n, back, cap, s);
    InBounds(m.e, s);
    var q := OneChar(m.e.inp, n, back, s.pos);
    var c := Run(pc, s, stk, k);
    if back {
      BackCharSteps(m, n, pc, s, stk, k);
    } else {
      CharStep(m, n, pc, s, stk, k);
    }
    if q >= 0 {
      DeliversOne(m, c, State(q, s.caps), End(n, back, cap, pc), stk, k);
      t := [[]];
    } else {
      DeliversNone(m, k, End(n, back, cap, pc), stk);
      DeliversFrom(m, c, Fail(k), [], End(n, back, cap, pc), stk, k, []);
      t := [];
    }
  }

  /** Where the instructions of a character node stand. */
  lemma CharPlaced(m: Machine, n: Node, back: bool, cap: nat, pc: nat)
    requires Placed(m, n, back, cap, pc) && IsOneChar(n)
    ensures WellFormed(n)
    ensures var i := CharNodeInstr(n);
      if back then
        && CodeAt(m.bc, pc, [Prev] + [i] + [Prev])
        && End(n, back, cap, pc) == pc + Length([Prev]) + Length([i]) + Length([Prev])
      else CodeAt(m.bc, pc, [i]) && End(n, back, cap, pc) == pc + Length([i])
  {
    hide CodeAt;
    hide Length;
    hide CharNodeInstr;
    var i := CharNodeInstr(n);
    CharNodeCode(n, back, cap);
    LengthConcat([Prev] + [i], [Prev]);
    LengthConcat([Prev], [i]);
  }

  lemma CharNodeCode(n: Node, back: bool, cap: nat)
    requires WellFormed(n) && IsOneChar(n)
    ensures Code(n, back, cap) == if back then [Prev] + [CharNodeInstr(n)] + [Prev] else [CharNodeInstr(n)]
  {
    hide CharInstr;
    hide ClassInstr;
  }

  lemma CharOutcomes(e: Env, n: Node, back: bool, cap: nat, s: State)
    requires WellFormed(n) && IsOneChar(n)
    ensures var q := OneChar(e.inp, n, back, s.pos);
      Outcomes(e, n, back, cap, s) == if q >= 0 then [State(q, s.caps)] else []
  {
    hide OneChar;
  }

  lemma InBounds(e: Env, s: State)
    requires Ok(e, s)
    ensures s.pos <= |e.inp.units|
  {
  }

  /** The character test itself. */
  lemma CharStep(m: Machine, n: Node, pc: nat, s: State, stk: seq<int>, k: seq<Saved>)
    requires WellFormed(n) && IsOneChar(n) && CodeAt(m.bc, pc, [CharNodeInstr(n)]) && s.pos <= |m.e.inp.units|
    ensures var q := OneChar(m.e.inp, n, false, s.pos);
      Reaches(m, Run(pc, s, stk, k),
              if q < 0 then Fail(k) else Run(pc + Length([CharNodeInstr(n)]), State(q, s.caps), stk, k))
  {
    hide CharTest;
    hide CodeAt;
    hide Encode;
    hide Size;
    hide Accepts;
    hide CharNodeInstr;
    hide Reaches;
    hide Length;
    var i := CharNodeInstr(n);
    CharNodeEncodable(n);
    LengthOne(i);
    AtChar(m, pc, i, s, stk, k);
    if s.pos < |m.e.inp.units| {
      CharTestMeaning(n, m.e.inp.CharAt(s.pos));
    }
  }

  lemma AtPrev(m: Machine, pc: nat, s: State, stk: seq<int>, k: seq<Saved>)
    requires CodeAt(m.bc, pc, [Prev]) && s.pos <= |m.e.inp.units|
    ensures Reaches(m, Run(pc, s, stk, k),
                    if s.pos == 0 then Fail(k)
                    else Run(pc + Length([Prev]), State(m.e.inp.Prev(s.pos), s.caps), stk, k))
  {
    CodeFetch(m.bc, pc, Prev);
    StepAt(m, Prev, Run(pc, s, stk, k));
  }

  /** Backwards: one character back, the test, which moves forward again, one character back. */
  lemma BackCharSteps(m: Machine, n: Node, pc: nat, s: State, stk: seq<int>, k: seq<Saved>)
    requires WellFormed(n) && IsOneChar(n) && Ok(m.e, s) && CodeAt(m.bc, pc, [Prev] + [CharNodeInstr(n)] + [Prev])
    ensures var q := OneChar(m.e.inp, n, true, s.pos);
      Reaches(m, Run(pc, s, stk, k),
              if q < 0 then Fail(k)
              else Run(pc + Length([Prev]) + Length([CharNodeInstr(n)]) + Length([Prev]), State(q, s.caps), stk, k))
  {
    hide Length;
    hide CodeAt;
    hide Reaches;
    hide Accepts;
    hide CharNodeInstr;
    var i, inp := CharNodeInstr(n), m.e.inp;
    CodeSplit(m.bc, pc, [Prev] + [i], [Prev]);
    CodeSplit(m.bc, pc, [Prev], [i]);
    LengthConcat([Prev], [i]);
    AtPrev(m, pc, s, stk, k);
    if s.pos > 0 {
      inp.NextPrev(s.pos);
      var s1, pc1 := State(inp.Prev(s.pos), s.caps), pc + Length([Prev]);
      var pc2 := pc1 + Length([i]);
      CharStep(m, n, pc1, s1, stk, k);
      if OneChar(inp, n, true, s.pos) < 0 {
        ReachesTrans(m, Run(pc, s, stk, k), Run(pc1, s1, stk, k), Fail(k));
      } else {
        AtPrev(m, pc2, s, stk, k);
        ReachesTrans(m, Run(pc, s, stk, k), Run(pc1, s1, stk, k), Run(pc2, s, stk, k));
        ReachesTrans(m, Run(pc, s, stk, k), Run(pc2, s, stk, k), Run(pc2 + Length([Prev]), s1, stk, k));
      }
    }
  }

  lemma AssertionCorrect(m: Machine, n: Node, back: bool, cap: nat, pc: nat, s: State, stk: seq<int>, k: seq<Saved>)
    returns (t: Trail)
    requires Placed(m, n, back, cap, pc) && IsAssertionNode(n)
    ensures Delivers(m, Run(pc, s, stk, k), Outcomes(m.e, n, back, cap, s), End(n, back, cap, pc), stk, k, t)
  {
    hide *;
    PlacedOpen(m, n, back, cap, pc);
    var c, ok := Run(pc, s, stk, k), Holds(m.e, n, s);
    AssertionCode(n, back, cap);
    AssertionOutcomes(m.e, n, back, cap, s);
    AtAssertion(m, n, pc, s, stk, k);
    if ok {
      DeliversOne(m, c, s, pc + 1, stk, k);
      t := [[]];
    } else {
      DeliversNone(m, k, pc + 1, stk);
      DeliversFrom(m, c, Fail(k), [], pc + 1, stk, k, []);
      t := [];
    }
  }

  predicate IsAssertionNode(n: Node) {
    n.LineStart? || n.LineEnd? || n.WordBoundary?
  }

  predicate Holds(e: Env, n: Node, s: State)
    requires IsAssertionNode(n)
  {
    match n
    case LineStart => AtLineStart(e, s.pos)
    case LineEnd => AtLineEnd(e, s.pos)
    case WordBoundary(negated) => AtWordBoundary(e, s.pos) != negated
  }

  function AssertionInstr(n: Node): Instr
    requires IsAssertionNode(n)
  {
    match n
    case LineStart => Instr.LineStart
    case LineEnd => Instr.LineEnd
    case WordBoundary(negated) => if negated then NotWordBoundary else Instr.WordBoundary
  }

  lemma AssertionCode(n: Node, back: bool, cap: nat)
    requires WellFormed(n) && IsAssertionNode(n)
    ensures Code(n, back, cap) == [AssertionInstr(n)] && Length(Code(n, back, cap)) == 1
  {
    LengthOne(AssertionInstr(n));
  }

  lemma AssertionOutcomes(e: Env, n: Node, back: bool, cap: nat, s: State)
    requires IsAssertionNode(n)
    ensures Outcomes(e, n, back, cap, s) == if Holds(e, n, s) then [s] else []
  {
    hide AtLineStart;
    hide AtLineEnd;
    hide AtWordBoundary;
  }

  lemma AtAssertion(m: Machine, n: Node, pc: nat, s: State, stk: seq<int>, k: seq<Saved>)
    requires IsAssertionNode(n) && CodeAt(m.bc, pc, [AssertionInstr(n)])
    ensures Reaches(m, Run(pc, s, stk, k), if Holds(m.e, n, s) then Run(pc + 1, s, stk, k) else Fail(k))
  {
    hide AtLineStart;
    hide AtLineEnd;
    hide AtWordBoundary;
    hide Decode;
    hide CodeAt;
    hide Reaches;
    hide Step;
    AssertionStep(m, n, pc + 1, s, stk, k);
    hide StepInstr;
    StepAt(m, AssertionInstr(n), Run(pc, s, stk, k));
  }

  lemma AssertionStep(m: Machine, n: Node, next: int, s: State, stk: seq<int>, k: seq<Saved>)
    requires IsAssertionNode(n)
    ensures Size(AssertionInstr(n)) == 1 && Encodable(AssertionInstr(n))
    ensures StepInstr(m, AssertionInstr(n), next, s, stk, k)
         == if Holds(m.e, n, s) then Run(next, s, stk, k) else Fail(k)
  {
    hide AtLineStart;
    hide AtLineEnd;
    hide AtWordBoundary;
  }

  lemma BackRefCorrect(m: Machine, n: Node, back: bool, cap: nat, pc: nat, s: State, stk: seq<int>, k: seq<Saved>)
    returns (t: Trail)
    requires Placed(m, n, back, cap, pc) && Ok(m.e, s) && n.BackRef?
    ensures Delivers(m, Run(pc, s, stk, k), Outcomes(m.e, n, back, cap, s), End(n, back, cap, pc), stk, k, t)
  {
    hide *;
    PlacedOpen(m, n, back, cap, pc);
    BackRefCode(n, back, cap);
    var c, q := Run(pc, s, stk, k), BackRefEnd(m.e, n.group, back, s);
    AtBackRef(m, n.group, back, pc, s, stk, k);
    BackRefOutcomes(m.e, n, back, cap, s);
    if q < 0 {
      DeliversNone(m, k, pc + 2, stk);
      DeliversFrom(m, c, Fail(k), [], pc + 2, stk, k, []);
      t := [];
    } else {
      DeliversOne(m, c, State(q, s.caps), pc + 2, stk, k);
      t := [[]];
    }
  }

  function BackRefInstr(g: int, back: bool): Instr {
    if back then BackwardBackReference(g) else BackReference(g)
  }

  lemma BackRefCode(n: Node, back: bool, cap: nat)
    requires WellFormed(n) && n.BackRef?
    ensures 0 <= n.group < 256 && Code(n, back, cap) == [BackRefInstr(n.group, back)] && Length(Code(n, back, cap)) == 2
  {
    LengthOne(BackRefInstr(n.group, back));
  }

  /** Where a back reference leads, or -1. */
  function BackRefEnd(e: Env, g: int, back: bool, s: State): int {
    if 0 <= g < e.groups then SameText(e.inp, back, Cap(s.caps, 2 * g), Cap(s.caps, 2 * g + 1), s.pos) else -1
  }

  lemma BackRefOutcomes(e: Env, n: Node, back: bool, cap: nat, s: State)
    requires n.BackRef?
    ensures var q := BackRefEnd(e, n.group, back, s);
      Outcomes(e, n, back, cap, s) == if q < 0 then [] else [State(q, s.caps)]
  {
    hide SameText;
  }

  lemma AtBackRef(m: Machine, g: int, back: bool, pc: nat, s: State, stk: seq<int>, k: seq<Saved>)
    requires CodeAt(m.bc, pc, [BackRefInstr(g, back)]) && 0 <= g < 256 && Ok(m.e, s)
    ensures var q := BackRefEnd(m.e, g, back, s);
      Reaches(m, Run(pc, s, stk, k), if q < 0 then Fail(k) else Run(pc + 2, State(q, s.caps), stk, k))
  {
    hide *;
    BackRefSize(g, back);
    StepAt(m, BackRefInstr(g, back), Run(pc, s, stk, k));
    BackRefEffect(m, g, back, pc + 2, s, stk, k);
  }

  lemma BackRefSize(g: int, back: bool)
    requires 0 <= g < 256
    ensures Encodable(BackRefInstr(g, back)) && Size(BackRefInstr(g, back)) == 2
  {
  }

  lemma BackRefEffect(m: Machine, g: int, back: bool, next: nat, s: State, stk: seq<int>, k: seq<Saved>)
    requires 0 <= g && Ok(m.e, s)
    ensures var q := BackRefEnd(m.e, g, back, s);
      StepInstr(m, BackRefInstr(g, back), next, s, stk, k)
      == if q < 0 then Fail(k) else Run(next, State(q, s.caps), stk, k)
  {
    hide SameText;
    hide SameForward;
    hide SameBackward;
    if g < m.e.groups {
      var a, b := Cap(s.caps, 2 * g), Cap(s.caps, 2 * g + 1);
      if 0 <= a && 0 <= b {
        assert OkCap(m.e.inp, s.caps[2 * g]) && OkCap(m.e.inp, s.caps[2 * g + 1]);
        if back {
          BackwardIsSameText(m.e.inp, a, b, s.pos);
        } else {
          ForwardIsSameText(m.e.inp, a, b, s.pos);
        }
      } else {
        UnsetIsEmpty(m.e.inp, back, a, b, s.pos);
      }
    }
  }

  lemma UnsetIsEmpty(inp: Input, back: bool, a: int, b: int, p: nat)
    requires a < 0 || b < 0
    ensures SameText(inp, back, a, b, p) == p
  {
  }

  lemma {:induction false} FromAllCorrect(m: Machine, n: Node, back: bool, cap: nat, bound: nat, pc: nat,
                                          c: Config, xs: seq<State>, stk: seq<int>, k: seq<Saved>, t: Trail)
    returns (u: Trail)
    requires Placed(m, n, back, cap, pc) && AllOk(m.e, back, bound, xs)
    requires Delivers(m, c, xs, pc, stk, k, t)
    ensures Delivers(m, c, FromAll(m.e, n, back, cap, xs), End(n, back, cap, pc), stk, k, u)
    decreases n, 2, 0, 0, |xs|
  {
    hide Outcomes;
    hide Code;
    hide CodeAt;
    hide Ok;
    hide End;
    if xs == [] {
      u := [];
    } else {
      assert xs[0] in xs;
      var t1 := NodeCorrect(m, n, back, cap, pc, xs[0], stk, k + t[0]);
      var t2 := FromAllCorrect(m, n, back, cap, bound, pc, Fail(k + t[0]), xs[1..], stk, k, t[1..]);
      u := DeliversHead(m, c, xs[0], Outcomes(m.e, n, back, cap, xs[0]), FromAll(m.e, n, back, cap, xs[1..]),
                        pc, stk, End(n, back, cap, pc), stk, k, t[0], t1, t2);
    }
  }

  lemma CatPlaced(m: Machine, n: Node, back: bool, cap: nat, pc: nat)
    requires Placed(m, n, back, cap, pc) && n.Cat?
    ensures WellFormed(n.left) && WellFormed(n.right)
    ensures var first, second := if back then n.right else n.left, if back then n.left else n.right;
      var cap1, cap2 := if back then cap + Groups(n.left) else cap, if back then cap else cap + Groups(n.left);
      && Placed(m, first, back, cap1, pc) && Placed(m, second, back, cap2, End(first, back, cap1, pc))
      && End(second, back, cap2, End(first, back, cap1, pc)) == End(n, back, cap, pc)
  {
    hide *;
    PlacedOpen(m, n, back, cap, pc);
    CatCode(n, back, cap);
    var first, second := if back then n.right else n.left, if back then n.left else n.right;
    var cap1, cap2 := if back then cap + Groups(n.left) else cap, if back then cap else cap + Groups(n.left);
    CodeSplit(m.bc, pc, Code(first, back, cap1), Code(second, back, cap2));
    LengthConcat(Code(first, back, cap1), Code(second, back, cap2));
    PlacedClose(m, first, back, cap1, pc);
    PlacedClose(m, second, back, cap2, End(first, back, cap1, pc));
  }

  lemma CatCorrect(m: Machine, n: Node, back: bool, cap: nat, pc: nat, s: State, stk: seq<int>, k: seq<Saved>)
    returns (t: Trail)
    requires Placed(m, n, back, cap, pc) && Ok(m.e, s) && n.Cat?
    ensures Delivers(m, Run(pc, s, stk, k), Outcomes(m.e, n, back, cap, s), End(n, back, cap, pc), stk, k, t)
    decreases n, 0, 0, 0, 0
  {
    hide *;
    CatPlaced(m, n, back, cap, pc);
    var first, second := if back then n.right else n.left, if back then n.left else n.right;
    var cap1, cap2 := if back then cap + Groups(n.left) else cap, if back then cap else cap + Groups(n.left);
    CatOutcomes(m.e, n, back, cap, s);
    t := NodeCorrect(m, first, back, cap1, pc, s, stk, k);
    OutcomesOk(m.e, first, back, cap1, s);
    t := FromAllCorrect(m, second, back, cap2, Remaining(m.e.inp, back, s.pos), End(first, back, cap1, pc),
                        Run(pc, s, stk, k), Outcomes(m.e, first, back, cap1, s), stk, k, t);
  }

  /** Where the parts of an alternation stand. */
  lemma AltParts(m: Machine, n: Node, back: bool, cap: nat, pc: nat) returns (la: nat, lb: nat)
    requires Placed(m, n, back, cap, pc) && n.Alt?
    ensures Placed(m, n.left, back, cap, pc + 5) && Placed(m, n.right, back, cap + Groups(n.left), pc + 10 + la)
    ensures WellFormed(n.left) && End(n.left, back, cap, pc + 5) == pc + 5 + la
    ensures WellFormed(n.right) && End(n.right, back, cap + Groups(n.left), pc + 10 + la) == pc + 10 + la + lb
    ensures CodeAt(m.bc, pc, [SplitNextFirst(la + 5)]) && CodeAt(m.bc, pc + 5 + la, [Goto(lb)])
    ensures End(n, back, cap, pc) == pc + 10 + la + lb <= |m.bc| < TWO_TO_THE_31
  {
    hide *;
    PlacedOpen(m, n, back, cap, pc);
    AltCode(n, back, cap);
    var ca, cb := Code(n.left, back, cap), Code(n.right, back, cap + Groups(n.left));
    la, lb := Length(ca), Length(cb);
    var i, j := SplitNextFirst(la + 5), Goto(lb);
    EitherCodeIs(ca, cb);
    CodeSplit4(m.bc, pc, [i], ca, [j], cb);
    Sizes(i);
    Sizes(j);
    PlacedClose(m, n.left, back, cap, pc + 5);
    PlacedClose(m, n.right, back, cap + Groups(n.left), pc + 10 + la);
  }

  lemma AltCorrect(m: Machine, n: Node, back: bool, cap: nat, pc: nat, s: State, stk: seq<int>, k: seq<Saved>)
    returns (t: Trail)
    requires Placed(m, n, back, cap, pc) && Ok(m.e, s) && n.Alt?
    ensures Delivers(m, Run(pc, s, stk, k),
                     Outcomes(m.e, n.left, back, cap, s) + Outcomes(m.e, n.right, back, cap + Groups(n.left), s),
                     End(n, back, cap, pc), stk, k, t)
    decreases n, 0, 0, 0, 0
  {
    hide Outcomes;
    hide Delivers;
    hide Ok;
    hide CodeAt;
    hide Reaches;
    hide Placed;
    hide End;
    var la, lb := AltParts(m, n, back, cap, pc);
    var a, b, cap2 := n.left, n.right, cap + Groups(n.left);
    var xs, ys := Outcomes(m.e, a, back, cap, s), Outcomes(m.e, b, back, cap2, s);
    var e := Alternative(pc + 10 + la, s, stk);
    var c1 := Run(pc + 5, s, stk, k + [e]);
    AtSplitNextFirst(m, pc, la + 5, s, stk, k);
    t := NodeCorrect(m, a, back, cap, pc + 5, s, stk, k + [e]);
    DeliversGoto(m, c1, xs, pc + 5 + la, lb, stk, k + [e], t);
    var u := NodeCorrect(m, b, back, cap2, pc + 10 + la, s, stk, k);
    t := DeliversSplit(m, Run(pc, s, stk, k), c1, e, xs, ys, pc + 10 + la + lb, stk, k, t, u);
  }

  /** Where the parts of a group stand. */
  lemma CaptureParts(m: Machine, n: Node, back: bool, cap: nat, pc: nat) returns (l: nat)
    requires Placed(m, n, back, cap, pc) && n.Capture?
    ensures cap < m.e.groups <= 255 && Placed(m, n.body, back, cap + 1, pc + 2)
    ensures WellFormed(n.body) && End(n.body, back, cap + 1, pc + 2) == pc + 2 + l
    ensures CodeAt(m.bc, pc, [if back then SaveEnd(cap) else SaveStart(cap)])
    ensures CodeAt(m.bc, pc + 2 + l, [if back then SaveStart(cap) else SaveEnd(cap)])
    ensures End(n, back, cap, pc) == pc + 4 + l
  {
    hide *;
    PlacedOpen(m, n, back, cap, pc);
    CaptureCode(n, back, cap);
    var c := Code(n.body, back, cap + 1);
    l := Length(c);
    var i, j := if back then SaveEnd(cap) else SaveStart(cap), if back then SaveStart(cap) else SaveEnd(cap);
    CodeSplit3(m.bc, pc, [i], c, [j]);
    Sizes(i);
    Sizes(j);
    PlacedClose(m, n.body, back, cap + 1, pc + 2);
  }

  lemma CaptureCorrect(m: Machine, n: Node, back: bool, cap: nat, pc: nat, s: State, stk: seq<int>, k: seq<Saved>)
    returns (t: Trail)
    requires Placed(m, n, back, cap, pc) && Ok(m.e, s) && n.Capture?
    ensures Delivers(m, Run(pc, s, stk, k),
                     AllClosed(back, cap, Outcomes(m.e, n.body, back, cap + 1, Opened(back, cap, s))),
                     End(n, back, cap, pc), stk, k, t)
    decreases n, 0, 0, 0, 0
  {
    hide Outcomes;
    hide Delivers;
    hide CodeAt;
    hide Reaches;
    hide AllClosed;
    hide Placed;
    hide End;
    var l := CaptureParts(m, n, back, cap, pc);
    var s1, c := Opened(back, cap, s), Run(pc, s, stk, k);
    var xs := Outcomes(m.e, n.body, back, cap + 1, s1);
    AtSave(m, pc, if back then SaveEnd(cap) else SaveStart(cap), s, stk, k);
    t := NodeCorrect(m, n.body, back, cap + 1, pc + 2, s1, stk, k);
    DeliversFrom(m, c, Run(pc + 2, s1, stk, k), xs, pc + 2 + l, stk, k, t);
    DeliversClose(m, c, xs, back, cap, pc + 2 + l, stk, k, t);
  }

  /** Where the parts of a lookaround stand. */
  lemma LookParts(m: Machine, n: Node, back: bool, cap: nat, pc: nat) returns (l: nat)
    requires Placed(m, n, back, cap, pc) && n.Look?
    ensures Placed(m, n.body, n.behind, cap, pc + 5)
    ensures WellFormed(n.body) && End(n.body, n.behind, cap, pc + 5) == pc + 5 + l
    ensures CodeAt(m.bc, pc, [if n.negated then NegativeLookahead(l + 1) else Lookahead(l + 1)])
    ensures CodeAt(m.bc, pc + 5 + l, [Match])
    ensures End(n, back, cap, pc) == pc + 6 + l <= |m.bc| < TWO_TO_THE_31
  {
    hide *;
    PlacedOpen(m, n, back, cap, pc);
    LookCode(n, back, cap);
    var c := Code(n.body, n.behind, cap);
    l := Length(c);
    var i := if n.negated then NegativeLookahead(l + 1) else Lookahead(l + 1);
    AroundCodeIs(n.negated, c);
    CodeSplit3(m.bc, pc, [i], c, [Match]);
    Sizes(i);
    Sizes(Match);
    PlacedClose(m, n.body, n.behind, cap, pc + 5);
  }

  lemma LookCorrect(m: Machine, n: Node, back: bool, cap: nat, pc: nat, s: State, stk: seq<int>, k: seq<Saved>)
    returns (t: Trail)
    requires Placed(m, n, back, cap, pc) && Ok(m.e, s) && n.Look?
    ensures var xs := Outcomes(m.e, n.body, n.behind, cap, s);
      Delivers(m, Run(pc, s, stk, k),
               if n.negated then When(xs == [], s) else if xs == [] then [] else [State(s.pos, xs[0].caps)],
               End(n, back, cap, pc), stk, k, t)
    decreases n, 0, 0, 0, 0
  {
    hide Outcomes;
    hide Delivers;
    hide Ok;
    hide CodeAt;
    hide Reaches;
    hide Placed;
    hide End;
    var l := LookParts(m, n, back, cap, pc);
    var c, xs := Run(pc, s, stk, k), Outcomes(m.e, n.body, n.behind, cap, s);
    var e := Lookout(n.negated, pc + 6 + l, s, stk);
    AtLookahead(m, pc, n.negated, l + 1, s, stk, k);
    t := NodeCorrect(m, n.body, n.behind, cap, pc + 5, s, stk, k + [e]);
    DeliversFrom(m, c, Run(pc + 5, s, stk, k + [e]), xs, pc + 5 + l, stk, k + [e], t);
    t := DeliversLook(m, c, n.negated, xs, pc + 5 + l, s, stk, k, t);
  }

  // ----- the mandatory iterations -----

  /** The counted loop around the mandatory iterations, entered with `v` to go. */
  ghost predicate MandatoryAt(m: Machine, n: Node, back: bool, cap: nat, pc: nat) {
    && Placed(m, n, back, cap, pc) && pc <= End(n, back, cap, pc) && End(n, back, cap, pc) + 5 <= |m.bc| < TWO_TO_THE_31
    && CodeAt(m.bc, End(n, back, cap, pc), [Instr.Loop(pc - (End(n, back, cap, pc) + 5))])
    && CodeAt(m.bc, End(n, back, cap, pc) + 5, [Drop])
  }

  lemma MandatoryLoop(m: Machine, n: Node, back: bool, cap: nat, pc: nat, v: nat, s: State, stk: seq<int>,
                      k: seq<Saved>)
    returns (t: Trail)
    requires MandatoryAt(m, n, back, cap, pc) && v >= 1 && Ok(m.e, s)
    ensures Delivers(m, Run(pc, s, stk + [v], k), Mandatory(m.e, n, back, cap, v, s), End(n, back, cap, pc) + 6, stk,
                     k, t)
    decreases n, 2, v, 1, 0
  {
    hide Outcomes;
    hide Delivers;
    hide Ok;
    hide CodeAt;
    hide End;
    hide MandatoryFromAll;
    var c, xs, end := Run(pc, s, stk + [v], k), Outcomes(m.e, n, back, cap, s), End(n, back, cap, pc);
    t := NodeCorrect(m, n, back, cap, pc, s, stk + [v], k);
    hide Placed;
    DeliversLoop(m, c, xs, end, pc - (end + 5), v, stk, k, t);
    if v == 1 {
      DeliversDrop(m, c, xs, end + 5, 0, stk, k, t);
      FromNone(m.e, n, back, cap, true, xs);
    } else {
      OutcomesOk(m.e, n, back, cap, s);
      t := MandatoryBind(m, n, back, cap, pc, v - 1, Remaining(m.e.inp, back, s.pos), c, xs, stk, k, t);
    }
  }

  lemma {:induction false} MandatoryBind(m: Machine, n: Node, back: bool, cap: nat, pc: nat, v: nat, bound: nat,
                                         c: Config, xs: seq<State>, stk: seq<int>, k: seq<Saved>, t: Trail)
    returns (u: Trail)
    requires MandatoryAt(m, n, back, cap, pc) && v >= 1 && AllOk(m.e, back, bound, xs)
    requires Delivers(m, c, xs, pc, stk + [v], k, t)
    ensures Delivers(m, c, MandatoryFromAll(m.e, n, back, cap, v, xs), End(n, back, cap, pc) + 6, stk, k, u)
    decreases n, 2, v, 2, |xs|
  {
    hide *;
    MandatoryOpen(m, n, back, cap, pc);
    MandatoryFromAllIs(m.e, n, back, cap, v, xs);
    if xs == [] {
      u := t;
      DeliversMoved(m, c, pc, stk + [v], End(n, back, cap, pc) + 6, stk, k, t);
    } else {
      DeliversFirst(m, c, xs, pc, stk + [v], k, t);
      AllOkParts(m.e, back, bound, xs);
      var t1 := MandatoryLoop(m, n, back, cap, pc, v, xs[0], stk, k + t[0]);
      var t2 := MandatoryBind(m, n, back, cap, pc, v, bound, Fail(k + t[0]), xs[1..], stk, k, t[1..]);
      u := DeliversHead(m, c, xs[0], Mandatory(m.e, n, back, cap, v, xs[0]),
                        MandatoryFromAll(m.e, n, back, cap, v, xs[1..]),
                        pc, stk + [v], End(n, back, cap, pc) + 6, stk, k, t[0], t1, t2);
    }
  }

  lemma MandatoryOpen(m: Machine, n: Node, back: bool, cap: nat, pc: nat)
    requires MandatoryAt(m, n, back, cap, pc)
    ensures WellFormed(n)
  {
  }

  lemma MandatoryFromAllIs(e: Env, n: Node, back: bool, cap: nat, k: nat, xs: seq<State>)
    ensures xs == [] ==> MandatoryFromAll(e, n, back, cap, k, xs) == []
    ensures xs != [] ==> MandatoryFromAll(e, n, back, cap, k, xs)
                         == Mandatory(e, n, back, cap, k, xs[0]) + MandatoryFromAll(e, n, back, cap, k, xs[1..])
  {
    hide Mandatory;
  }

  lemma AllOkParts(e: Env, back: bool, bound: nat, xs: seq<State>)
    requires AllOk(e, back, bound, xs) && xs != []
    ensures Ok(e, xs[0]) && AllOk(e, back, bound, xs[1..])
  {
    assert xs[0] in xs;
    hide Ok;
  }

  /** Nothing delivered is delivered anywhere. */
  lemma DeliversMoved(m: Machine, c: Config, pc: int, stk: seq<int>, pc1: int, stk1: seq<int>, k: seq<Saved>, t: Trail)
    requires Delivers(m, c, [], pc, stk, k, t)
    ensures Delivers(m, c, [], pc1, stk1, k, t)
  {
  }

  /** What the mandatory part of a repeat starts the optional part with. */
  function Starts(e: Env, n: Node, back: bool, cap: nat, min: int, s: State): seq<State> {
    var s0 := if min == 0 then State(s.pos, ResetCaps(s.caps, cap, cap + Groups(n) - 1)) else s;
    if min <= 0 then [s0] else Mandatory(e, n, back, cap, min, s0)
  }

  lemma MandatoryParts(m: Machine, n: Node, back: bool, cap: nat, min: int, pc: nat)
    requires WellFormed(n) && cap + Groups(n) <= m.e.groups <= 255 && |m.bc| < TWO_TO_THE_31 && 2 <= min
    requires CodeAt(m.bc, pc, MandatoryCode(Code(n, back, cap), Groups(n), cap, min))
    ensures CodeAt(m.bc, pc, [PushI32(min)]) && MandatoryAt(m, n, back, cap, pc + 5)
    ensures pc + Length(MandatoryCode(Code(n, back, cap), Groups(n), cap, min)) == End(n, back, cap, pc + 5) + 6
  {
    hide Length;
    hide CodeAt;
    hide Code;
    hide MandatoryCode;
    var c := Code(n, back, cap);
    var i, j := PushI32(min), Instr.Loop(-(Length(c) + 5));
    MandatoryIs(c, Groups(n), cap, min);
    CodeSplit4(m.bc, pc, [i], c, [j], [Drop]);
    Sizes(i);
    Sizes(j);
    Sizes(Drop);
  }

  lemma MandatoryIs(c: seq<Instr>, groups: nat, cap: nat, min: int)
    requires 2 <= min
    ensures MandatoryCode(c, groups, cap, min) == [PushI32(min)] + c + [Instr.Loop(-(Length(c) + 5))] + [Drop]
  {
  }

  lemma MandatoryCorrect(m: Machine, n: Node, back: bool, cap: nat, min: int, pc: nat, s: State, stk: seq<int>,
                         k: seq<Saved>)
    returns (t: Trail)
    requires WellFormed(n) && cap + Groups(n) <= m.e.groups <= 255 && |m.bc| < TWO_TO_THE_31 && 0 <= min <= INFINITE
    requires Ok(m.e, s)
    requires CodeAt(m.bc, pc, MandatoryCode(Code(n, back, cap), Groups(n), cap, min))
    ensures Delivers(m, Run(pc, s, stk, k), Starts(m.e, n, back, cap, min, s),
                     pc + Length(MandatoryCode(Code(n, back, cap), Groups(n), cap, min)), stk, k, t)
    decreases n, 3, 0, 0, 0
  {
    hide *;
    StartsAre(m.e, n, back, cap, min, s);
    if min == 0 {
      t := NoneMandatory(m, n, back, cap, pc, s, stk, k);
    } else if min == 1 {
      MandatoryOne(n, back, cap);
      PlacedClose(m, n, back, cap, pc);
      t := NodeCorrect(m, n, back, cap, pc, s, stk, k);
    } else {
      MandatoryParts(m, n, back, cap, min, pc);
      U32Small(min);
      AtPush(m, pc, min, s, stk, k);
      t := MandatoryLoop(m, n, back, cap, pc + 5, min, s, stk, k);
      DeliversFrom(m, Run(pc, s, stk, k), Run(pc + 5, s, stk + [min], k), Mandatory(m.e, n, back, cap, min, s),
                   End(n, back, cap, pc + 5) + 6, stk, k, t);
    }
  }

  lemma StartsAre(e: Env, n: Node, back: bool, cap: nat, min: int, s: State)
    requires 0 <= min
    ensures min == 1 ==> Starts(e, n, back, cap, min, s) == Outcomes(e, n, back, cap, s)
    ensures min > 0 ==> Starts(e, n, back, cap, min, s) == Mandatory(e, n, back, cap, min, s)
  {
    hide Outcomes;
    FromNone(e, n, back, cap, true, Outcomes(e, n, back, cap, s));
  }

  lemma MandatoryOne(n: Node, back: bool, cap: nat)
    requires WellFormed(n)
    ensures MandatoryCode(Code(n, back, cap), Groups(n), cap, 1) == Code(n, back, cap)
  {
    hide Code;
  }

  lemma U32Small(v: int)
    requires 0 <= v <= INFINITE
    ensures IsU32(v)
  {
  }

  /** With minimum 0 only the captures of the atom are reset. */
  lemma NoneMandatory(m: Machine, n: Node, back: bool, cap: nat, pc: nat, s: State, stk: seq<int>, k: seq<Saved>)
    returns (t: Trail)
    requires WellFormed(n) && cap + Groups(n) <= m.e.groups <= 255
    requires CodeAt(m.bc, pc, MandatoryCode(Code(n, back, cap), Groups(n), cap, 0))
    ensures Delivers(m, Run(pc, s, stk, k), Starts(m.e, n, back, cap, 0, s),
                     pc + Length(MandatoryCode(Code(n, back, cap), Groups(n), cap, 0)), stk, k, t)
  {
    hide Delivers;
    hide CodeAt;
    hide Length;
    hide Code;
    var g, c0 := Groups(n), Run(pc, s, stk, k);
    t := [[]];
    if g > 0 {
      Sizes(SaveReset(cap, cap + g - 1));
      AtSaveReset(m, pc, cap, cap + g - 1, s, stk, k);
      DeliversOne(m, c0, State(s.pos, ResetCaps(s.caps, cap, cap + g - 1)), pc + 3, stk, k);
    } else {
      ReachesRefl(m, c0);
      NoReset(s.caps, cap, cap + g - 1);
      DeliversOne(m, c0, s, pc, stk, k);
      EmptyLength();
    }
  }

  lemma EmptyLength()
    ensures Length([]) == 0
  {
  }

  // ----- the optional iterations in place -----

  ghost predicate RepeatFits(m: Machine, n: Node, cap: nat) {
    WellFormed(n) && cap + Groups(n) <= m.e.groups <= 255 && |m.bc| < TWO_TO_THE_31
  }

  function OptionalOf(n: Node, back: bool, cap: nat, min: int, max: int, greedy: bool): seq<Instr>
    requires WellFormed(n)
  {
    OptionalCode(Guarded(MayStay(Code(n, back, cap)), Code(n, back, cap)), min, max, greedy)
  }

  lemma LoopParts(bc: seq<byte>, pc: nat, g: seq<Instr>, greedy: bool, unb: bool)
    requires CodeAt(bc, pc, LoopCode(g, greedy, unb))
    ensures CodeAt(bc, pc, [Branch(greedy, Length(g) + 5)]) && CodeAt(bc, pc + 5, g)
    ensures CodeAt(bc, pc + 5 + Length(g), [if unb then Goto(-(Length(g) + 10)) else Instr.Loop(-(Length(g) + 10))])
    ensures !unb ==> CodeAt(bc, pc + 10 + Length(g), [Drop])
    ensures pc + Length(LoopCode(g, greedy, unb)) == pc + 10 + Length(g) + (if unb then 0 else 1) <= |bc|
  {
    hide Length;
    hide CodeAt;
    var i := Branch(greedy, Length(g) + 5);
    var j := if unb then Goto(-(Length(g) + 10)) else Instr.Loop(-(Length(g) + 10));
    var rest := if unb then [] else [Drop];
    assert LoopCode(g, greedy, unb) == [i] + g + [j] + rest;
    hide LoopCode;
    CodeSplit4(bc, pc, [i], g, [j], rest);
    Sizes(i);
    Sizes(j);
    Sizes(Drop);
    EmptyLength();
  }

  lemma OnceParts(bc: seq<byte>, pc: nat, g: seq<Instr>, greedy: bool)
    requires CodeAt(bc, pc, [Branch(greedy, Length(g))] + g)
    ensures CodeAt(bc, pc, [Branch(greedy, Length(g))]) && CodeAt(bc, pc + 5, g)
    ensures pc + Length([Branch(greedy, Length(g))] + g) == pc + 5 + Length(g) <= |bc|
  {
    hide Length;
    hide CodeAt;
    var i := Branch(greedy, Length(g));
    CodeFits(bc, pc, [i] + g);
    CodeSplit(bc, pc, [i], g);
    LengthConcat([i], g);
    Sizes(i);
  }

  /** The shape of the optional part of a repeat whose code stands at `pc`; a counted loop is
      entered after the push of its counter. */
  lemma OptionalShape(m: Machine, n: Node, back: bool, cap: nat, min: int, max: int, greedy: bool, pc: nat)
    returns (sh: Shape)
    requires RepeatFits(m, n, cap) && 0 <= min <= max <= INFINITE
    requires CodeAt(m.bc, pc, OptionalOf(n, back, cap, min, max, greedy))
    ensures ShapeAt(m, n, back, cap, sh) && sh.form != Plus && sh.greedy == greedy && Unbounded(sh) == (max == INFINITE)
    ensures sh.final == pc + Length(OptionalOf(n, back, cap, min, max, greedy))
    ensures CounterOk(sh, max - min)
    ensures sh.form == Around(false) ==> sh.head == pc + 5 && CodeAt(m.bc, pc, [PushI32(max - min)])
    ensures sh.form != Around(false) ==> sh.head == pc
  {
    hide Length;
    hide CodeAt;
    hide Code;
    hide MayStay;
    hide Guarded;
    hide ShapeAt;
    hide LoopCode;
    var g := Guarded(MayStay(Code(n, back, cap)), Code(n, back, cap));
    if max == INFINITE {
      sh := LoopShape(m, n, back, cap, greedy, true, pc);
    } else if max <= min {
      EmptyLength();
      sh := SkipShape(m, n, back, cap, greedy, pc);
    } else if min == 0 && max == 1 {
      sh := OnceShape(m, n, back, cap, greedy, pc);
    } else {
      var i := PushI32(max - min);
      CodeSplit(m.bc, pc, [i], LoopCode(g, greedy, false));
      LengthConcat([i], LoopCode(g, greedy, false));
      Sizes(i);
      sh := LoopShape(m, n, back, cap, greedy, false, pc + 5);
    }
  }

  lemma SkipShape(m: Machine, n: Node, back: bool, cap: nat, greedy: bool, pc: nat) returns (sh: Shape)
    requires RepeatFits(m, n, cap)
    ensures ShapeAt(m, n, back, cap, sh) && sh.form == Skip && sh.greedy == greedy && sh.head == sh.final == pc
  {
    sh := Shape(Skip, false, greedy, pc, pc, pc, pc);
  }

  lemma LoopShape(m: Machine, n: Node, back: bool, cap: nat, greedy: bool, unb: bool, pc: nat) returns (sh: Shape)
    requires RepeatFits(m, n, cap)
    requires CodeAt(m.bc, pc, LoopCode(Guarded(MayStay(Code(n, back, cap)), Code(n, back, cap)), greedy, unb))
    ensures ShapeAt(m, n, back, cap, sh) && sh.form == Around(unb) && sh.greedy == greedy && sh.head == pc
    ensures sh.final == pc + Length(LoopCode(Guarded(MayStay(Code(n, back, cap)), Code(n, back, cap)), greedy, unb))
  {
    hide *;
    RepeatFitsOpen(m, n, cap);
    var check := MayStay(Code(n, back, cap));
    var g := Guarded(check, Code(n, back, cap));
    var l: int := Length(g);
    LoopParts(m.bc, pc, g, greedy, unb);
    sh := Shape(Around(unb), check, greedy, pc, pc + 5, pc + 10 + l, pc + 10 + l + (if unb then 0 else 1));
    LoopBranchAt(m, sh, l);
    LoopTailAt(m, sh, l, unb);
    LoopClose(m, n, back, cap, sh, l);
  }

  lemma RepeatFitsOpen(m: Machine, n: Node, cap: nat)
    requires RepeatFits(m, n, cap)
    ensures WellFormed(n) && cap + Groups(n) <= m.e.groups <= 255 && |m.bc| < TWO_TO_THE_31
  {
  }

  lemma LoopTailAt(m: Machine, sh: Shape, l: nat, unb: bool)
    requires |m.bc| < TWO_TO_THE_31 && sh.form == Around(unb) && sh.final <= |m.bc|
    requires sh.exit == sh.head + 10 + l && sh.final == sh.exit + (if unb then 0 else 1)
    requires CodeAt(m.bc, sh.head + 5 + l, [if unb then Goto(-(l + 10)) else Instr.Loop(-(l + 10))])
    requires !unb ==> CodeAt(m.bc, sh.head + 10 + l, [Drop])
    ensures TailAt(m, sh, sh.head + 5 + l)
  {
    hide CodeAt;
    assert sh.head - (sh.head + 5 + l + 5) == -(l + 10);
  }

  lemma LoopClose(m: Machine, n: Node, back: bool, cap: nat, sh: Shape, l: nat)
    requires WellFormed(n) && cap + Groups(n) <= m.e.groups <= 255 && |m.bc| < TWO_TO_THE_31 && sh.form.Around?
    requires sh.check == MayStay(Code(n, back, cap)) && l == Length(Guarded(sh.check, Code(n, back, cap)))
    requires sh.body == sh.head + 5 && CodeAt(m.bc, sh.body, Guarded(sh.check, Code(n, back, cap)))
    requires BranchAt(m, sh) && TailAt(m, sh, sh.head + 5 + l)
    ensures ShapeAt(m, n, back, cap, sh)
  {
    hide Length;
    hide Guarded;
    hide Code;
    hide MayStay;
    hide CodeAt;
    hide BranchAt;
    hide TailAt;
  }

  lemma LoopBranchAt(m: Machine, sh: Shape, l: int)
    requires |m.bc| < TWO_TO_THE_31 && sh.form.Around? && sh.body == sh.head + 5 && sh.exit == sh.head + 10 + l
    requires sh.exit <= |m.bc| && l >= 0
    requires CodeAt(m.bc, sh.head, [Branch(sh.greedy, l + 5)])
    ensures BranchAt(m, sh)
  {
    hide CodeAt;
    hide Branch;
    assert sh.exit - (sh.head + 5) == l + 5;
  }

  lemma OnceShape(m: Machine, n: Node, back: bool, cap: nat, greedy: bool, pc: nat) returns (sh: Shape)
    requires RepeatFits(m, n, cap)
    requires var g := Guarded(MayStay(Code(n, back, cap)), Code(n, back, cap));
      CodeAt(m.bc, pc, [Branch(greedy, Length(g))] + g)
    ensures ShapeAt(m, n, back, cap, sh) && sh.form == Once && sh.greedy == greedy && sh.head == pc
    ensures var g := Guarded(MayStay(Code(n, back, cap)), Code(n, back, cap));
      sh.final == pc + Length([Branch(greedy, Length(g))] + g)
  {
    hide *;
    RepeatFitsOpen(m, n, cap);
    var check := MayStay(Code(n, back, cap));
    var g := Guarded(check, Code(n, back, cap));
    var l: int := Length(g);
    OnceParts(m.bc, pc, g, greedy);
    sh := Shape(Once, check, greedy, pc, pc + 5, pc + 5 + l, pc + 5 + l);
    OnceClose(m, n, back, cap, sh, l);
  }

  lemma OnceClose(m: Machine, n: Node, back: bool, cap: nat, sh: Shape, l: nat)
    requires WellFormed(n) && cap + Groups(n) <= m.e.groups <= 255 && |m.bc| < TWO_TO_THE_31 && sh.form == Once
    requires sh.check == MayStay(Code(n, back, cap)) && l == Length(Guarded(sh.check, Code(n, back, cap)))
    requires sh.body == sh.head + 5 && CodeAt(m.bc, sh.body, Guarded(sh.check, Code(n, back, cap)))
    requires sh.exit == sh.final == sh.body + l <= |m.bc| && CodeAt(m.bc, sh.head, [Branch(sh.greedy, l)])
    ensures ShapeAt(m, n, back, cap, sh)
  {
    hide Length;
    hide Guarded;
    hide Code;
    hide MayStay;
    hide CodeAt;
    hide Branch;
    assert sh.exit - (sh.head + 5) == l;
  }

  lemma OptionalPart(m: Machine, n: Node, back: bool, cap: nat, min: int, max: int, greedy: bool, pc: nat, bound: nat,
                     c: Config, xs: seq<State>, stk: seq<int>, k: seq<Saved>, t: Trail)
    returns (u: Trail)
    requires RepeatFits(m, n, cap) && 0 <= min <= max <= INFINITE && AllOk(m.e, back, bound, xs)
    requires CodeAt(m.bc, pc, OptionalOf(n, back, cap, min, max, greedy))
    requires Delivers(m, c, xs, pc, stk, k, t)
    ensures Delivers(m, c, OptionalFromAll(m.e, n, back, cap, max - min, max == INFINITE, greedy, xs),
                     pc + Length(OptionalOf(n, back, cap, min, max, greedy)), stk, k, u)
    decreases n, 4, 0, 0, 0
  {
    hide Delivers;
    hide Ok;
    hide CodeAt;
    hide Length;
    hide OptionalOf;
    hide OptionalFromAll;
    hide ShapeAt;
    var sh := OptionalShape(m, n, back, cap, min, max, greedy, pc);
    if sh.form == Around(false) {
      DeliversPush(m, c, xs, pc, max - min, stk, k, t);
    }
    u := OptionalBind(m, n, back, cap, sh, max - min, bound + 1, c, xs, stk, k, t);
  }

  // ----- the three ways to compile a repeat -----

  lemma RepeatOutcomes(e: Env, n: Node, back: bool, cap: nat, s: State)
    requires n.Repeat?
    ensures Outcomes(e, n, back, cap, s)
            == OptionalFromAll(e, n.body, back, cap, n.max - n.min, n.max == INFINITE, n.greedy,
                               Starts(e, n.body, back, cap, n.min, s))
  {
  }

  lemma StartsOk(e: Env, n: Node, back: bool, cap: nat, min: int, s: State)
    requires Ok(e, s)
    ensures AllOk(e, back, Remaining(e.inp, back, s.pos), Starts(e, n, back, cap, min, s))
  {
    ResetOk(e, s, cap, cap + Groups(n) - 1);
    if min > 0 {
      MandatoryOk(e, n, back, cap, min, s);
    }
  }

  lemma GeneralRepeat(m: Machine, n: Node, back: bool, cap: nat, pc: nat, s: State, stk: seq<int>, k: seq<Saved>)
    returns (t: Trail)
    requires Placed(m, n, back, cap, pc) && Ok(m.e, s) && n.Repeat?
    requires var c := Code(n.body, back, cap); !IsSimpleRepeat(c, n.max, n.greedy) && !IsPlus(c, n.min, n.max)
    ensures Delivers(m, Run(pc, s, stk, k), Outcomes(m.e, n, back, cap, s), End(n, back, cap, pc), stk, k, t)
    decreases n, 0, 0, 0, 1
  {
    hide *;
    PlacedOpen(m, n, back, cap, pc);
    GeneralCode(n, back, cap);
    t := ExpansionCorrect(m, n, back, cap, pc, s, stk, k);
  }

  /** The general expansion of a repeat: the mandatory iterations, then the split and loop. */
  function Expansion(n: Node, back: bool, cap: nat): seq<Instr>
    requires WellFormed(n) && n.Repeat?
  {
    var c := Code(n.body, back, cap);
    MandatoryCode(c, Groups(n.body), cap, n.min) + OptionalCode(Guarded(MayStay(c), c), n.min, n.max, n.greedy)
  }

  lemma GeneralCode(n: Node, back: bool, cap: nat)
    requires WellFormed(n) && n.Repeat?
    requires var c := Code(n.body, back, cap); !IsSimpleRepeat(c, n.max, n.greedy) && !IsPlus(c, n.min, n.max)
    ensures Code(n, back, cap) == Expansion(n, back, cap)
  {
    hide MandatoryCode;
    hide OptionalCode;
    hide Guarded;
    hide SimpleCount;
    hide MayStay;
    hide Length;
  }

  /** The general expansion delivers the outcomes of the repeat, whatever the atom. */
  lemma ExpansionCorrect(m: Machine, n: Node, back: bool, cap: nat, pc: nat, s: State, stk: seq<int>, k: seq<Saved>)
    returns (t: Trail)
    requires WellFormed(n) && n.Repeat? && cap + Groups(n) <= m.e.groups <= 255 && |m.bc| < TWO_TO_THE_31 && Ok(m.e, s)
    requires CodeAt(m.bc, pc, Expansion(n, back, cap))
    ensures Delivers(m, Run(pc, s, stk, k), Outcomes(m.e, n, back, cap, s), pc + Length(Expansion(n, back, cap)), stk,
                     k, t)
    decreases n, 0, 0, 0, 0
  {
    hide Delivers;
    hide Ok;
    hide CodeAt;
    hide Length;
    hide Outcomes;
    hide Starts;
    hide OptionalFromAll;
    hide MandatoryCode;
    hide OptionalCode;
    hide SimpleCount;
    hide MayStay;
    hide Guarded;
    hide Code;
    var Repeat(a, min, max, greedy) := n;
    var mc, oc := MandatoryCode(Code(a, back, cap), Groups(a), cap, min), OptionalOf(a, back, cap, min, max, greedy);
    CodeSplit(m.bc, pc, mc, oc);
    LengthConcat(mc, oc);
    t := MandatoryCorrect(m, a, back, cap, min, pc, s, stk, k);
    StartsOk(m.e, a, back, cap, min, s);
    t := OptionalPart(m, a, back, cap, min, max, greedy, pc + Length(mc), Remaining(m.e.inp, back, s.pos),
                      Run(pc, s, stk, k), Starts(m.e, a, back, cap, min, s), stk, k, t);
    RepeatOutcomes(m.e, n, back, cap, s);
  }

  /** The fast form refines the slow one: for every repeat the compiler turns into a simple greedy
      quantifier, that code at `fast` and the general expansion at `slow` deliver the same states
      in the same order. */
  lemma FastRefinesSlow(m: Machine, n: Node, cap: nat, fast: nat, slow: nat, s: State, stk: seq<int>, k: seq<Saved>)
    returns (t: Trail, u: Trail)
    requires Placed(m, n, false, cap, fast) && n.Repeat?
    requires IsSimpleRepeat(Code(n.body, false, cap), n.max, n.greedy) && Ok(m.e, s)
    requires CodeAt(m.bc, slow, Expansion(n, false, cap))
    ensures Code(n, false, cap) != [] && Code(n, false, cap)[0].SimpleGreedyQuant?
    ensures Delivers(m, Run(fast, s, stk, k), Outcomes(m.e, n, false, cap, s), End(n, false, cap, fast), stk, k, t)
    ensures Delivers(m, Run(slow, s, stk, k), Outcomes(m.e, n, false, cap, s), slow + Length(Expansion(n, false, cap)),
                     stk, k, u)
  {
    hide *;
    PlacedOpen(m, n, false, cap, fast);
    FastCode(n, cap);
    t := NodeCorrect(m, n, false, cap, fast, s, stk, k);
    u := ExpansionCorrect(m, n, false, cap, slow, s, stk, k);
  }

  lemma FastCode(n: Node, cap: nat)
    requires WellFormed(n) && n.Repeat? && IsSimpleRepeat(Code(n.body, false, cap), n.max, n.greedy)
    ensures |Code(n, false, cap)| > 0 && Code(n, false, cap)[0].SimpleGreedyQuant?
  {
    hide Length;
    hide MayStay;
  }

  lemma GreedyParts(m: Machine, n: Node, cap: nat, pc: nat) returns (l: nat, count: nat)
    requires Placed(m, n, false, cap, pc) && n.Repeat? && IsSimpleRepeat(Code(n.body, false, cap), n.max, n.greedy)
    ensures SimpleAtom(m, n.body, cap, pc + 17, count) && End(n, false, cap, pc) == pc + 17 + (l + 1)
    ensures CodeAt(m.bc, pc, [SimpleGreedyQuant(l + 1, n.min, n.max, count)])
    ensures Encodable(SimpleGreedyQuant(l + 1, n.min, n.max, count))
  {
    hide *;
    PlacedOpen(m, n, false, cap, pc);
    GreedyCode(n, cap);
    var c := Code(n.body, false, cap);
    l, count := Length(c), SimpleCount(c);
    SimpleBound(c);
    var i := SimpleGreedyQuant(l + 1, n.min, n.max, count);
    CodeSplit(m.bc, pc, [i], c + [Match]);
    LengthConcat([i], c + [Match]);
    LengthConcat(c, [Match]);
    Sizes(i);
    Sizes(Match);
    GreedyAtom(m, n.body, cap, pc + 17);
    QuantEncodable(l + 1, n.min, n.max, count);
  }

  lemma GreedyCode(n: Node, cap: nat)
    requires WellFormed(n) && n.Repeat? && IsSimpleRepeat(Code(n.body, false, cap), n.max, n.greedy)
    ensures WellFormed(n.body) && n.greedy && 0 < n.max && 0 <= n.min <= n.max <= INFINITE
    ensures SimpleCount(Code(n.body, false, cap)) > 0
    ensures var c := Code(n.body, false, cap);
      Code(n, false, cap) == [SimpleGreedyQuant(Length(c) + 1, n.min, n.max, SimpleCount(c))] + (c + [Match])
  {
    hide *;
    RepeatNode(n, cap);
    SimpleRepeatCode(Code(n.body, false, cap), Groups(n.body), cap, n.min, n.max, n.greedy);
  }

  lemma SimpleRepeatCode(c: seq<Instr>, groups: nat, cap: nat, min: int, max: int, greedy: bool)
    requires IsSimpleRepeat(c, max, greedy)
    ensures greedy && max > 0 && SimpleCount(c) > 0
    ensures RepeatCode(c, groups, cap, min, max, greedy)
         == [SimpleGreedyQuant(Length(c) + 1, min, max, SimpleCount(c))] + (c + [Match])
  {
    hide SimpleCount;
    hide Length;
  }

  lemma RepeatNode(n: Node, cap: nat)
    requires WellFormed(n) && n.Repeat?
    ensures WellFormed(n.body) && 0 <= n.min <= n.max <= INFINITE
    ensures Code(n, false, cap)
         == RepeatCode(Code(n.body, false, cap), Groups(n.body), cap, n.min, n.max, n.greedy)
  {
    hide RepeatCode;
  }

  lemma GreedyAtom(m: Machine, n: Node, cap: nat, pc: nat)
    requires WellFormed(n) && SimpleCount(Code(n, false, cap)) > 0 && CodeAt(m.bc, pc, Code(n, false, cap) + [Match])
    ensures SimpleAtom(m, n, cap, pc, SimpleCount(Code(n, false, cap)))
  {
    hide Code;
    hide SimpleCount;
    hide CodeAt;
  }

  lemma QuantEncodable(d: int, min: int, max: int, count: int)
    requires 0 <= d < TWO_TO_THE_31 && 0 <= min <= max <= INFINITE && 0 <= count < TWO_TO_THE_31
    ensures Encodable(SimpleGreedyQuant(d, min, max, count))
  {
  }

  lemma GreedyRepeat(m: Machine, n: Node, back: bool, cap: nat, pc: nat, s: State, stk: seq<int>, k: seq<Saved>)
    returns (t: Trail)
    requires Placed(m, n, back, cap, pc) && Ok(m.e, s) && n.Repeat?
    requires IsSimpleRepeat(Code(n.body, back, cap), n.max, n.greedy)
    ensures Delivers(m, Run(pc, s, stk, k), Outcomes(m.e, n, back, cap, s), End(n, back, cap, pc), stk, k, t)
  {
    hide Delivers;
    hide Ok;
    hide Outcomes;
    hide OptionalFromAll;
    hide Mandatory;
    hide Code;
    hide CodeAt;
    hide End;
    hide SimpleCount;
    if back {
      BackNotSimple(n.body, cap);
    }
    var l, count := GreedyParts(m, n, cap, pc);
    SimpleNoGroups(n.body, cap);
    NoReset(s.caps, cap, cap + Groups(n.body) - 1);
    RepeatOutcomes(m.e, n, back, cap, s);
    t := SimpleQuantCorrect(m, n.body, cap, pc, l + 1, count, n.min, n.max, s, stk, k);
  }

  lemma NoReset(caps: seq<int>, first: nat, last: int)
    requires last < first
    ensures ResetCaps(caps, first, last) == caps
  {
  }

  lemma PlusParts(m: Machine, n: Node, back: bool, cap: nat, pc: nat) returns (sh: Shape)
    requires Placed(m, n, back, cap, pc) && n.Repeat?
    requires var c := Code(n.body, back, cap); !IsSimpleRepeat(c, n.max, n.greedy) && IsPlus(c, n.min, n.max)
    ensures Placed(m, n.body, back, cap, pc) && sh.head == End(n.body, back, cap, pc)
    ensures sh.final == End(n, back, cap, pc)
    ensures sh.form == Plus && sh.greedy == n.greedy && ShapeAt(m, n.body, back, cap, sh)
  {
    hide *;
    PlacedOpen(m, n, back, cap, pc);
    PlusCode(n, back, cap);
    var c := Code(n.body, back, cap);
    var l: int := Length(c);
    var i := PlusBranch(n.greedy, 0 - (l + 5));
    CodeSplit(m.bc, pc, c, [i]);
    LengthConcat(c, [i]);
    PlusSize(n.greedy, 0 - (l + 5));
    PlacedClose(m, n.body, back, cap, pc);
    sh := PlusShape(m, n.body, back, cap, n.greedy, pc, l);
  }

  lemma PlusCode(n: Node, back: bool, cap: nat)
    requires WellFormed(n) && n.Repeat?
    ensures WellFormed(n.body) && Groups(n) == Groups(n.body)
    ensures var c := Code(n.body, back, cap);
      !IsSimpleRepeat(c, n.max, n.greedy) && IsPlus(c, n.min, n.max)
      ==> !MayStay(c) && n.min == 1 && n.max == INFINITE
          && Code(n, back, cap) == c + [PlusBranch(n.greedy, 0 - (Length(c) + 5))]
  {
    hide Length;
    hide MayStay;
    hide SimpleCount;
    hide RepeatCode;
    PlusRepeatCode(Code(n.body, back, cap), Groups(n.body), cap, n.min, n.max, n.greedy);
  }

  lemma PlusRepeatCode(c: seq<Instr>, groups: nat, cap: nat, min: int, max: int, greedy: bool)
    ensures !IsSimpleRepeat(c, max, greedy) && IsPlus(c, min, max)
            ==> !MayStay(c) && min == 1 && max == INFINITE
                && RepeatCode(c, groups, cap, min, max, greedy) == c + [PlusBranch(greedy, 0 - (Length(c) + 5))]
  {
    hide Length;
    hide MayStay;
    hide SimpleCount;
    hide MandatoryCode;
    hide OptionalCode;
    hide Guarded;
    assert 0 - (Length(c) + 5) == -(Length(c) + 5);
  }

  lemma PlusSize(greedy: bool, d: int)
    ensures Length([PlusBranch(greedy, d)]) == 5
  {
    Sizes(PlusBranch(greedy, d));
  }

  lemma PlusShape(m: Machine, n: Node, back: bool, cap: nat, greedy: bool, pc: nat, l: nat) returns (sh: Shape)
    requires Placed(m, n, back, cap, pc) && l == Length(Code(n, back, cap)) && !MayStay(Code(n, back, cap))
    requires pc + l + 5 <= |m.bc| && CodeAt(m.bc, pc + l, [PlusBranch(greedy, 0 - (l + 5))])
    ensures sh.form == Plus && sh.greedy == greedy && sh.head == pc + l && sh.final == pc + l + 5
    ensures ShapeAt(m, n, back, cap, sh)
  {
    hide Length;
    hide CodeAt;
    hide Code;
    hide MayStay;
    sh := Shape(Plus, false, greedy, pc + l, pc, pc + l + 5, pc + l + 5);
    assert sh.body - (sh.head + 5) == 0 - (l + 5);
  }

  lemma PlusRepeat(m: Machine, n: Node, back: bool, cap: nat, pc: nat, s: State, stk: seq<int>, k: seq<Saved>)
    returns (t: Trail)
    requires Placed(m, n, back, cap, pc) && Ok(m.e, s) && n.Repeat?
    requires var c := Code(n.body, back, cap); !IsSimpleRepeat(c, n.max, n.greedy) && IsPlus(c, n.min, n.max)
    ensures Delivers(m, Run(pc, s, stk, k), Outcomes(m.e, n, back, cap, s), End(n, back, cap, pc), stk, k, t)
    decreases n, 0, 0, 0, 0
  {
    hide Delivers;
    hide Ok;
    hide Outcomes;
    hide OptionalFromAll;
    hide ShapeAt;
    hide Placed;
    hide Code;
    hide End;
    var sh := PlusParts(m, n, back, cap, pc);
    var a, xs := n.body, Outcomes(m.e, n.body, back, cap, s);
    t := NodeCorrect(m, a, back, cap, pc, s, stk, k);
    OutcomesOk(m.e, a, back, cap, s);
    t := OptionalBind(m, a, back, cap, sh, n.max - n.min, Remaining(m.e.inp, back, s.pos) + 1, Run(pc, s, stk, k), xs,
                      stk, k, t);
    FromNone(m.e, a, back, cap, true, xs);
    RepeatOutcomes(m.e, n, back, cap, s);
  }

  lemma RepeatCorrect(m: Machine, n: Node, back: bool, cap: nat, pc: nat, s: State, stk: seq<int>, k: seq<Saved>)
    returns (t: Trail)
    requires Placed(m, n, back, cap, pc) && Ok(m.e, s) && n.Repeat?
    ensures Delivers(m, Run(pc, s, stk, k), Outcomes(m.e, n, back, cap, s), End(n, back, cap, pc), stk, k, t)
    decreases n, 1, 0, 0, 0
  {
    hide Delivers;
    hide Code;
    hide Ok;
    hide End;
    hide Outcomes;
    hide CodeAt;
    hide IsSimpleRepeat;
    hide IsPlus;
    var c := Code(n.body, back, cap);
    if IsSimpleRepeat(c, n.max, n.greedy) {
      t := GreedyRepeat(m, n, back, cap, pc, s, stk, k);
    } else if IsPlus(c, n.min, n.max) {
      t := PlusRepeat(m, n, back, cap, pc, s, stk, k);
    } else {
      t := GeneralRepeat(m, n, back, cap, pc, s, stk, k);
    }
  }

  /** The code of a pattern delivers the pattern's outcomes in order, each with the stack as it was,
      and then fails into the entries it started with. */
  lemma NodeCorrect(m: Machine, n: Node, back: bool, cap: nat, pc: nat, s: State, stk: seq<int>, k: seq<Saved>)
    returns (t: Trail)
    requires Placed(m, n, back, cap, pc) && Ok(m.e, s)
    ensures Delivers(m, Run(pc, s, stk, k), Outcomes(m.e, n, back, cap, s), End(n, back, cap, pc), stk, k, t)
    decreases n, 1, 1, 0, 0
  {
    hide Delivers;
    hide Code;
    hide Length;
    hide Ok;
    hide Placed;
    hide End;
    match n
    case Empty => t := EmptyCorrect(m, n, back, cap, pc, s, stk, k);
    case Cat(_, _) => t := CatCorrect(m, n, back, cap, pc, s, stk, k);
    case Alt(_, _) => t := AltCorrect(m, n, back, cap, pc, s, stk, k);
    case Capture(_) => t := CaptureCorrect(m, n, back, cap, pc, s, stk, k);
    case Look(_, _, _) => t := LookCorrect(m, n, back, cap, pc, s, stk, k);
    case BackRef(_) => t := BackRefCorrect(m, n, back, cap, pc, s, stk, k);
    case Repeat(_, _, _, _) => t := RepeatCorrect(m, n, back, cap, pc, s, stk, k);
    case LineStart => t := AssertionCorrect(m, n, back, cap, pc, s, stk, k);
    case LineEnd => t := AssertionCorrect(m, n, back, cap, pc, s, stk, k);
    case WordBoundary(_) => t := AssertionCorrect(m, n, back, cap, pc, s, stk, k);
    case _ => t := CharCorrect(m, n, back, cap, pc, s, stk, k);
  }

  lemma EmptyCorrect(m: Machine, n: Node, back: bool, cap: nat, pc: nat, s: State, stk: seq<int>, k: seq<Saved>)
    returns (t: Trail)
    requires Placed(m, n, back, cap, pc) && n.Empty?
    ensures Delivers(m, Run(pc, s, stk, k), Outcomes(m.e, n, back, cap, s), End(n, back, cap, pc), stk, k, t)
  {
    ReachesRefl(m, Run(pc, s, stk, k));
    DeliversOne(m, Run(pc, s, stk, k), s, pc, stk, k);
    t := [[]];
  }
}
