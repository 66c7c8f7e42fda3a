/** The backtracking interpreter as a step function: one byte-code instruction, or one entry of
    the state stack unwound, a step. Stuck marks what the C code leaves undefined or reports as a
    byte-code error; compiled programs never get there. */
module RegexMachine {
  import opened Bytes
  import opened Instructions
  import opened MatchInput
  import opened RegexSemantics

  datatype Kind = SplitState | LookaheadState | NegativeLookaheadState | GreedyQuantState

  /** An entry of the state stack (`REExecState`). */
  datatype Saved = Saved(kind: Kind, pc: int, pos: nat, caps: seq<int>, stack: seq<int>, count: nat)

  datatype Machine = Machine(bc: seq<byte>, e: Env)

  datatype Config =
    | Run(pc: int, s: State, stack: seq<int>, saved: seq<Saved>)
    | Succeed(caps: seq<int>, saved: seq<Saved>)
    | Fail(saved: seq<Saved>)
    | Done(matched: bool, caps: seq<int>)
    | Stuck

  datatype Test = Yes | No | Broken

  function Verdict(b: bool): Test {
    if b then Yes else No
  }

  /** The binary search of REOP_range and REOP_range32; Broken when the unsigned index would wrap. */
  function RangeSearch(b: seq<int>, c: int, lo: nat, hi: int): Test
    requires 2 * hi + 1 < |b|
    decreases hi - lo
  {
    if hi < lo then No
    else
      var mid := (lo + hi) / 2;
      if c < b[2 * mid] then (if mid == 0 then Broken else RangeSearch(b, c, lo, mid - 1))
      else if c > b[2 * mid + 1] then RangeSearch(b, c, mid + 1, hi)
      else Yes
  }

  /** The tests before the binary search; `wide` is REOP_range, where 0xFFFF stands for infinity. */
  function RangeTest(b: seq<int>, c: int, wide: bool): Test {
    if |b| < 2 then Broken
    else if c < b[0] then No
    else if wide && c >= 0xFFFF && b[|b| - 1] == 0xFFFF then Yes
    else if c > b[|b| - 1] then No
    else RangeSearch(b, c, 0, |b| / 2 - 1)
  }

  function CharTest(i: Instr, c: int): Test {
    match i
    case Char8(d) => Verdict(c == d)
    case Char16(d) => Verdict(c == d)
    case Char32(d) => Verdict(c == d)
    case Dot => Verdict(!IsLineTerminator(c))
    case Any => Yes
    case Range(b) => RangeTest(b, c, true)
    case Range32(b) => RangeTest(b, c, false)
    case _ => Broken
  }

  function AssertionTest(e: Env, i: Instr, p: nat): Test {
    match i
    case LineStart => Verdict(AtLineStart(e, p))
    case LineEnd => Verdict(AtLineEnd(e, p))
    case WordBoundary => Verdict(AtWordBoundary(e, p))
    case NotWordBoundary => Verdict(!AtWordBoundary(e, p))
    case _ => Broken
  }

  /** GET_CHAR with the end of the buffer at `lim`. */
  function PairWithin(inp: Input, p: nat, lim: nat): bool {
    p + 1 < lim && inp.Pair(p)
  }

  function CharWithin(inp: Input, p: nat, lim: nat): int
    requires p < |inp.units|
  {
    if PairWithin(inp, p, lim) then FromSurrogate(inp.units[p], inp.units[p + 1]) else inp.units[p]
  }

  function NextWithin(inp: Input, p: nat, lim: nat): nat {
    if PairWithin(inp, p, lim) then p + 2 else p + 1
  }

  /** The comparison loop of REOP_back_reference from capture text `p..lim`; -1 is no match. */
  function SameForward(inp: Input, p: nat, lim: nat, q: nat): int
    requires lim <= |inp.units|
    decreases lim - p
  {
    if lim <= p then q
    else if |inp.units| <= q then -1
    else if CharWithin(inp, p, lim) == inp.CharAt(q) then SameForward(inp, NextWithin(inp, p, lim), lim, inp.Next(q))
    else -1
  }

  /** GET_PREV_CHAR with the start of the buffer at `lim`. */
  function PairBefore(inp: Input, p: nat, lim: nat): bool {
    lim + 2 <= p && inp.Pair(p - 2)
  }

  function CharBeforeWithin(inp: Input, p: nat, lim: nat): int
    requires 0 < p <= |inp.units|
  {
    if PairBefore(inp, p, lim) then FromSurrogate(inp.units[p - 2], inp.units[p - 1]) else inp.units[p - 1]
  }

  function PrevWithin(inp: Input, p: nat, lim: nat): nat
    requires 0 < p
  {
    if PairBefore(inp, p, lim) then p - 2 else p - 1
  }

  /** The comparison loop of REOP_backward_back_reference down to `lim`. */
  function SameBackward(inp: Input, lim: nat, p: nat, q: nat): int
    requires p <= |inp.units| && q <= |inp.units|
    decreases p
  {
    if p <= lim then q
    else if q == 0 then -1
    else if CharBeforeWithin(inp, p, lim) == CharBeforeWithin(inp, q, 0)
    then SameBackward(inp, lim, PrevWithin(inp, p, lim), PrevWithin(inp, q, 0))
    else -1
  }

  const NO_MATCH: int := -1
  const BROKEN: int := -2

  /** What one instruction of the atom of a simple quantifier does at `p`: the next position,
      NO_MATCH, or BROKEN for an instruction such an atom never contains. */
  function AtomMove(e: Env, i: Instr, p: nat): int {
    match AssertionTest(e, i, p)
    case Yes => p
    case No => NO_MATCH
    case Broken =>
      match CharTest(i, if p < |e.inp.units| then e.inp.CharAt(p) else 0)
      case Yes => if p < |e.inp.units| then e.inp.Next(p) else NO_MATCH
      case No => NO_MATCH
      case Broken => BROKEN
  }

  /** `lre_exec_backtrack` with `no_recurse` on the atom of a simple quantifier: the end position,
      NO_MATCH or BROKEN. */
  function AtomRun(m: Machine, pc: int, p: nat): int
    decreases |m.bc| - pc
  {
    if pc < 0 then BROKEN else
    match Decode(m.bc, pc)
    case Invalid => BROKEN
    case Fetched(i) =>
      if i.Match? then p
      else if |m.bc| < pc + Size(i) then BROKEN
      else
        var q := AtomMove(m.e, i, p);
        if q < 0 then q else AtomRun(m, pc + Size(i), q)
  }

  datatype Scan = Scan(count: nat, pos: nat) | NoScan

  /** The matching loop of REOP_simple_greedy_quant, `q` iterations in. */
  function GreedyScan(m: Machine, pc: int, p: nat, max: int, q: nat): Scan
    decreases if p <= |m.e.inp.units| then |m.e.inp.units| - p else 0
  {
    var r := AtomRun(m, pc, p);
    if r == BROKEN then NoScan
    else if r < 0 then Scan(q, p)
    else if max <= q + 1 && max != INFINITE then Scan(q + 1, r)
    else if p < r <= |m.e.inp.units| then GreedyScan(m, pc, r, max, q + 1)
    else NoScan
  }

  /** One instruction; `next` is the address after it. */
  function StepInstr(m: Machine, i: Instr, next: int, s: State, stack: seq<int>, saved: seq<Saved>): Config {
    match i
    case Goto(d) => Run(next + d, s, stack, saved)
    case SplitGotoFirst(d) => Run(next + d, s, stack, saved + [Saved(SplitState, next, s.pos, s.caps, stack, 0)])
    case SplitNextFirst(d) => Run(next, s, stack, saved + [Saved(SplitState, next + d, s.pos, s.caps, stack, 0)])
    case Match => Succeed(s.caps, saved)
    case SaveStart(g) =>
      if 0 <= g < m.e.groups then Run(next, State(s.pos, SetCap(s.caps, 2 * g, s.pos)), stack, saved) else Stuck
    case SaveEnd(g) =>
      if 0 <= g < m.e.groups then Run(next, State(s.pos, SetCap(s.caps, 2 * g + 1, s.pos)), stack, saved) else Stuck
    case SaveReset(first, last) =>
      if 0 <= first && last < m.e.groups then
        Run(next, State(s.pos, ResetCaps(s.caps, first, last)), stack, saved)
      else Stuck
    case Loop(d) =>
      if stack == [] then Stuck
      else
        var top := stack[|stack| - 1] - 1;
        Run(if top != 0 then next + d else next, s, stack[|stack| - 1 := top], saved)
    case PushI32(v) => Run(next, s, stack + [v], saved)
    case Drop => if stack == [] then Stuck else Run(next, s, stack[..|stack| - 1], saved)
    case PushCharPos => Run(next, s, stack + [s.pos], saved)
    case CheckAdvance =>
      if stack == [] then Stuck
      else if stack[|stack| - 1] == s.pos then Fail(saved)
      else Run(next, s, stack[..|stack| - 1], saved)
    case BackReference(g) =>
      if !(0 <= g < m.e.groups) then Fail(saved)
      else
        var a, b := Cap(s.caps, 2 * g), Cap(s.caps, 2 * g + 1);
        if a < 0 || b < 0 then Run(next, s, stack, saved)
        else if |m.e.inp.units| < b || |m.e.inp.units| < s.pos then Stuck
        else
          var q := SameForward(m.e.inp, a, b, s.pos);
          if q < 0 then Fail(saved) else Run(next, State(q, s.caps), stack, saved)
    case BackwardBackReference(g) =>
      if !(0 <= g < m.e.groups) then Fail(saved)
      else
        var a, b := Cap(s.caps, 2 * g), Cap(s.caps, 2 * g + 1);
        if a < 0 || b < 0 then Run(next, s, stack, saved)
        else if |m.e.inp.units| < b || |m.e.inp.units| < s.pos then Stuck
        else
          var q := SameBackward(m.e.inp, a, b, s.pos);
          if q < 0 then Fail(saved) else Run(next, State(q, s.caps), stack, saved)
    case Lookahead(d) =>
      Run(next, s, stack, saved + [Saved(LookaheadState, next + d, s.pos, s.caps, stack, 0)])
    case NegativeLookahead(d) =>
      Run(next, s, stack, saved + [Saved(NegativeLookaheadState, next + d, s.pos, s.caps, stack, 0)])
    case Prev =>
      if s.pos == 0 then Fail(saved)
      else if |m.e.inp.units| < s.pos then Stuck
      else Run(next, State(m.e.inp.Prev(s.pos), s.caps), stack, saved)
    case SimpleGreedyQuant(d, min, max, _) =>
      match GreedyScan(m, next, s.pos, max, 0) {
        case NoScan => Stuck
        case Scan(q, p) =>
          if q < min then Fail(saved)
          else
            Run(next + d, State(p, s.caps), stack,
                if q > min then saved + [Saved(GreedyQuantState, next - 16, p, s.caps, stack, q - min)] else saved)
      }
    case _ =>
      match AssertionTest(m.e, i, s.pos) {
        case Yes => Run(next, s, stack, saved)
        case No => Fail(saved)
        case Broken =>
          if |m.e.inp.units| <= s.pos then Fail(saved)
          else
            match CharTest(i, m.e.inp.CharAt(s.pos))
            case Yes => Run(next, State(m.e.inp.Next(s.pos), s.caps), stack, saved)
            case No => Fail(saved)
            case Broken => Stuck
      }
  }

  /** `no_match`: the top entry of the state stack is resumed or discarded. */
  function StepFail(m: Machine, saved: seq<Saved>): Config {
    if saved == [] then Done(false, [])
    else
      var rest, top := saved[..|saved| - 1], saved[|saved| - 1];
      match top.kind
      case SplitState => Run(top.pc, State(top.pos, top.caps), top.stack, rest)
      case NegativeLookaheadState => Run(top.pc, State(top.pos, top.caps), top.stack, rest)
      case LookaheadState => Fail(rest)
      case GreedyQuantState =>
        if top.pc < 0 || |m.bc| < top.pc + 16 || |m.e.inp.units| < top.pos || top.count == 0 then Stuck
        else
          var p := m.e.inp.PrevN(top.pos, GetU32(m.bc, top.pc + 12));
          if p < 0 then Stuck
          else
            Run(top.pc + 16 + AsInt(GetU32(m.bc, top.pc)), State(p, top.caps), top.stack,
                if top.count == 1 then rest else rest + [top.(pos := p, count := top.count - 1)])
  }

  /** `match`: entries are discarded down to the enclosing lookahead. */
  function StepSucceed(caps: seq<int>, saved: seq<Saved>): Config {
    if saved == [] then Done(true, caps)
    else
      var rest, top := saved[..|saved| - 1], saved[|saved| - 1];
      match top.kind
      case LookaheadState => Run(top.pc, State(top.pos, caps), top.stack, rest)
      case NegativeLookaheadState => Fail(rest)
      case _ => Succeed(caps, rest)
  }

  function Step(m: Machine, c: Config): Config {
    match c
    case Run(pc, s, stack, saved) =>
      if pc < 0 then Stuck
      else (
        match Decode(m.bc, pc)
        case Invalid => Stuck
        case Fetched(i) => StepInstr(m, i, pc + Size(i), s, stack, saved)
      )
    case Succeed(caps, saved) => StepSucceed(caps, saved)
    case Fail(saved) => StepFail(m, saved)
    case _ => c
  }

  function Steps(m: Machine, c: Config, n: nat): Config
    decreases n
  {
    if n == 0 then c else Steps(m, Step(m, c), n - 1)
  }

  ghost predicate Reaches(m: Machine, c: Config, d: Config) {
    exists n: nat :: Steps(m, c, n) == d
  }

  lemma {:induction false} StepsAdd(m: Machine, c: Config, i: nat, j: nat)
    ensures Steps(m, c, i + j) == Steps(m, Steps(m, c, i), j)
    decreases i
  {
    if i > 0 {
      StepsAdd(m, Step(m, c), i - 1, j);
    }
  }

  lemma ReachesRefl(m: Machine, c: Config)
    ensures Reaches(m, c, c)
  {
    assert Steps(m, c, 0) == c;
  }

  lemma ReachesStep(m: Machine, c: Config)
    ensures Reaches(m, c, Step(m, c))
  {
    assert Steps(m, c, 1) == Steps(m, Step(m, c), 0);
  }

  lemma ReachesTrans(m: Machine, c: Config, d: Config, f: Config)
    requires Reaches(m, c, d) && Reaches(m, d, f)
    ensures Reaches(m, c, f)
  {
    var i: nat :| Steps(m, c, i) == d;
    var j: nat :| Steps(m, d, j) == f;
    StepsAdd(m, c, i, j);
  }

  /** What a run does at the instruction standing at `pc`. */
  lemma StepAt(m: Machine, i: Instr, c: Config)
    requires c.Run? && 0 <= c.pc && CodeAt(m.bc, c.pc, [i]) && Encodable(i)
    ensures Step(m, c) == StepInstr(m, i, c.pc + Size(i), c.s, c.stack, c.saved)
    ensures Reaches(m, c, Step(m, c))
  {
    hide StepInstr;
    hide Decode;
    CodeFetch(m.bc, c.pc, i);
    ReachesStep(m, c);
  }
}
