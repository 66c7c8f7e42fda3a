/** `lre_exec` and `lre_exec_backtrack`: the interpreter loop over the capture array, the stack
    buffer and the state stack, proved to follow the step function and to return exactly the
    first match. Interrupt polling and allocation failure are not part of this model. */
module RegexExec {
  import opened Bytes
  import opened Instructions
  import opened MatchInput
  import opened RegexSemantics
  import opened RegexCode
  import opened RegexMachine
  import opened RegexMatch
  import opened RegexStack

  /** The binary search loop of REOP_range. */
  method SearchRanges(b: seq<int>, c: int) returns (t: Test)
    requires |b| >= 2 && |b| % 2 == 0
    ensures t == RangeSearch(b, c, 0, |b| / 2 - 1)
  {
    var lo, hi := 0, |b| / 2 - 1;
    while lo <= hi
      invariant 0 <= lo && 2 * hi + 1 < |b|
      invariant RangeSearch(b, c, lo, hi) == RangeSearch(b, c, 0, |b| / 2 - 1)
      decreases hi - lo
    {
      var idx := (lo + hi) / 2;
      if c < b[2 * idx] {
        if idx == 0 {
          return Broken;
        }
        hi := idx - 1;
      } else if c > b[2 * idx + 1] {
        lo := idx + 1;
      } else {
        return Yes;
      }
    }
    return No;
  }

  method TestChar(i: Instr, c: int) returns (t: Test)
    requires (i.Range? || i.Range32?) ==> |i.bounds| % 2 == 0
    ensures t == CharTest(i, c)
  {
    match i
    case Range(b) =>
      if |b| < 2 {
        t := Broken;
      } else if c < b[0] {
        t := No;
      } else if c >= 0xFFFF && b[|b| - 1] == 0xFFFF {
        t := Yes;
      } else if c > b[|b| - 1] {
        t := No;
      } else {
        t := SearchRanges(b, c);
      }
    case Range32(b) =>
      if |b| < 2 {
        t := Broken;
      } else if c < b[0] || c > b[|b| - 1] {
        t := No;
      } else {
        t := SearchRanges(b, c);
      }
    case _ => t := CharTest(i, c);
  }

  /** The forward comparison loop of a back reference. */
  method CompareForward(inp: Input, start: nat, end: nat, from: nat) returns (q: int)
    requires end <= |inp.units|
    ensures q == SameForward(inp, start, end, from)
  {
    var p: nat, r: nat := start, from;
    while p < end
      invariant SameForward(inp, p, end, r) == SameForward(inp, start, end, from)
      decreases end - p
    {
      if r >= |inp.units| {
        return -1;
      }
      var c1, c2 := CharWithin(inp, p, end), inp.CharAt(r);
      p, r := NextWithin(inp, p, end), inp.Next(r);
      if c1 != c2 {
        return -1;
      }
    }
    return r;
  }

  /** The backward comparison loop of a back reference. */
  method CompareBackward(inp: Input, start: nat, end: nat, from: nat) returns (q: int)
    requires end <= |inp.units| && from <= |inp.units|
    ensures q == SameBackward(inp, start, end, from)
  {
    var p: nat, r: nat := end, from;
    while p > start
      invariant p <= |inp.units| && r <= |inp.units|
      invariant SameBackward(inp, start, p, r) == SameBackward(inp, start, end, from)
      decreases p
    {
      if r == 0 {
        return -1;
      }
      var c1, c2 := CharBeforeWithin(inp, p, start), CharBeforeWithin(inp, r, 0);
      p, r := PrevWithin(inp, p, start), PrevWithin(inp, r, 0);
      if c1 != c2 {
        return -1;
      }
    }
    return r;
  }

  lemma DecodedSize(bc: seq<byte>, pc: nat)
    ensures Decode(bc, pc).Fetched? ==> Size(Decode(bc, pc).i) >= 1
    ensures Decode(bc, pc).Fetched? && (Decode(bc, pc).i.Range? || Decode(bc, pc).i.Range32?)
            ==> |Decode(bc, pc).i.bounds| % 2 == 0
  {
    DecodedBounds(bc, pc);
    hide Decode;
    if Decode(bc, pc).Fetched? {
      SizeAtLeastOne(Decode(bc, pc).i);
    }
  }

  lemma SizeAtLeastOne(i: Instr)
    ensures Size(i) >= 1
  {
  }

  lemma DecodedBounds(bc: seq<byte>, pc: nat)
    ensures Decode(bc, pc).Fetched? && (Decode(bc, pc).i.Range? || Decode(bc, pc).i.Range32?)
            ==> |Decode(bc, pc).i.bounds| % 2 == 0
  {
    hide Size;
  }

  /** One instruction of a simple quantifier's atom. */
  method MoveAtom(e: Env, i: Instr, p: nat) returns (q: int)
    requires (i.Range? || i.Range32?) ==> |i.bounds| % 2 == 0
    ensures q == AtomMove(e, i, p)
  {
    match AssertionTest(e, i, p)
    case Yes => q := p;
    case No => q := NO_MATCH;
    case Broken =>
      var t := TestChar(i, if p < |e.inp.units| then e.inp.CharAt(p) else 0);
      match t {
        case Yes => q := if p < |e.inp.units| then e.inp.Next(p) else NO_MATCH;
        case No => q := NO_MATCH;
        case Broken => q := BROKEN;
      }
  }

  /** `lre_exec_backtrack` with `no_recurse`, on the atom of a simple quantifier. */
  method RunAtom(m: Machine, start: int, from: nat) returns (q: int)
    ensures q == AtomRun(m, start, from)
  {
    hide Decode;
    hide AtomMove;
    hide Size;
    var pc, p: nat := start, from;
    while 0 <= pc
      invariant AtomRun(m, pc, p) == AtomRun(m, start, from)
      decreases |m.bc| - pc
    {
      var f := Decode(m.bc, pc);
      if f == Invalid {
        return BROKEN;
      }
      DecodedSize(m.bc, pc);
      if f.i == Match {
        return p;
      }
      if pc + Size(f.i) > |m.bc| {
        return BROKEN;
      }
      var r := MoveAtom(m.e, f.i, p);
      if r < 0 {
        return r;
      }
      pc, p := pc + Size(f.i), r;
    }
    return BROKEN;
  }

  /** The matching loop of REOP_simple_greedy_quant. */
  method ScanAtoms(m: Machine, pc: int, from: nat, max: int) returns (s: Scan)
    ensures s == GreedyScan(m, pc, from, max, 0)
  {
    hide AtomRun;
    var q: nat, p: nat := 0, from;
    while true
      invariant GreedyScan(m, pc, p, max, q) == GreedyScan(m, pc, from, max, 0)
      decreases if p <= |m.e.inp.units| then |m.e.inp.units| - p else 0
    {
      var r := RunAtom(m, pc, p);
      if r == BROKEN {
        return NoScan;
      }
      if r < 0 {
        return Scan(q, p);
      }
      if q + 1 >= max && max != INFINITE {
        return Scan(q + 1, r);
      }
      if !(p < r <= |m.e.inp.units|) {
        return NoScan;
      }
      p, q := r, q + 1;
    }
  }

  /** The give-back loop over PREV_CHAR. */
  method StepBack(inp: Input, from: nat, count: nat) returns (q: int)
    requires from <= |inp.units|
    ensures q == inp.PrevN(from, count)
  {
    var p: nat, i: nat := from, 0;
    while i < count
      invariant i <= count && p <= |inp.units|
      invariant inp.PrevN(p, count - i) == inp.PrevN(from, count)
    {
      if p == 0 {
        return -1;
      }
      p, i := inp.Prev(p), i + 1;
    }
    return p;
  }

  /** How an instruction ends: on to the next one, `goto no_match`, or `match`. */
  datatype Signal = Go | NoMatch | Matched

  predicate IsControl(i: Instr) {
    i.Goto? || i.SplitGotoFirst? || i.SplitNextFirst? || i.Lookahead? || i.NegativeLookahead? || i.Match?
  }

  predicate IsStackOp(i: Instr) {
    i.PushI32? || i.Drop? || i.Loop? || i.PushCharPos? || i.CheckAdvance?
  }

  predicate IsTest(i: Instr) {
    !(IsControl(i) || IsStackOp(i) || i.SaveStart? || i.SaveEnd? || i.SaveReset? || i.BackReference?
      || i.BackwardBackReference? || i.SimpleGreedyQuant?)
  }

  // ----- what every configuration of a run satisfies -----

  /** Every copy of the capture array has its size, and every copy of the stack fits the buffer. */
  ghost predicate Fits(m: Machine, c: Config, bound: nat) {
    && c != Stuck && Sized(m, c)
    && (c.Run? ==> |c.stack| <= bound)
    && forall i :: 0 <= i < |Entries(c)| ==> |Entries(c)[i].stack| <= bound
  }

  ghost predicate Sized(m: Machine, c: Config) {
    && (c.Run? ==> |c.s.caps| == 2 * m.e.groups)
    && (c.Succeed? ==> |c.caps| == 2 * m.e.groups)
    && forall i :: 0 <= i < |Entries(c)| ==> |Entries(c)[i].caps| == 2 * m.e.groups
  }

  ghost predicate Safe(m: Machine, c0: Config, bound: nat) {
    forall k: nat :: Fits(m, Steps(m, c0, k), bound)
  }

  lemma StepSized(m: Machine, c: Config)
    requires Sized(m, c)
    ensures Sized(m, Step(m, c))
  {
    hide Decode;
    hide StepInstr;
    hide StepFail;
    hide StepSucceed;
    hide Sized;
    SizedParts(m, c);
    match c
    case Run(pc, s, stack, saved) =>
      if 0 <= pc && Decode(m.bc, pc).Fetched? {
        InstrSized(m, Decode(m.bc, pc).i, pc + Size(Decode(m.bc, pc).i), s, stack, saved);
      } else {
        StuckSized(m);
      }
    case Fail(saved) => UnwindSized(m, false, [], saved);
    case Succeed(caps, saved) => UnwindSized(m, true, caps, saved);
    case _ =>
  }

  lemma StuckSized(m: Machine)
    ensures Sized(m, Stuck)
  {
  }

  lemma SizedParts(m: Machine, c: Config)
    requires Sized(m, c)
    ensures c.Run? ==> |c.s.caps| == 2 * m.e.groups
    ensures c.Succeed? ==> |c.caps| == 2 * m.e.groups
    ensures c.Run? || c.Succeed? || c.Fail? ==> forall i :: 0 <= i < |c.saved| ==> |c.saved[i].caps| == 2 * m.e.groups
  {
    assert c.Run? || c.Fail? || c.Succeed? ==> Entries(c) == c.saved;
  }

  lemma InstrSized(m: Machine, i: Instr, next: int, s: State, stack: seq<int>, saved: seq<Saved>)
    requires |s.caps| == 2 * m.e.groups && forall j :: 0 <= j < |saved| ==> |saved[j].caps| == 2 * m.e.groups
    ensures Sized(m, StepInstr(m, i, next, s, stack, saved))
  {
    hide GreedyScan;
    hide AssertionTest;
    hide CharTest;
    hide SameForward;
    hide SameBackward;
  }

  lemma UnwindSized(m: Machine, ret: bool, caps: seq<int>, saved: seq<Saved>)
    requires ret ==> |caps| == 2 * m.e.groups
    requires forall j :: 0 <= j < |saved| ==> |saved[j].caps| == 2 * m.e.groups
    ensures Sized(m, if ret then StepSucceed(caps, saved) else StepFail(m, saved))
  {
    hide Input.PrevN;
  }

  lemma {:induction false} StepsSized(m: Machine, c: Config, k: nat)
    requires Sized(m, c)
    ensures Sized(m, Steps(m, c, k))
    decreases k
  {
    hide Sized;
    if k > 0 {
      StepSized(m, c);
      StepsSized(m, Step(m, c), k - 1);
    }
  }

  /** A run of a compiled program fits a buffer of the size the compiler computed. */
  lemma LoadedSafe(m: Machine, n: Node, sticky: bool, p: nat)
    requires Loaded(m, n, sticky) && m.e.inp.Boundary(p)
    ensures Safe(m, Run(0, Start(m.e, p), [], []), Peak(Program(n, sticky)))
  {
    var c0, prog := Run(0, Start(m.e, p), [], []), Program(n, sticky);
    hide Loaded;
    hide Steps;
    hide Peak;
    hide Program;
    hide Mark;
    forall k: nat ensures Fits(m, Steps(m, c0, k), Peak(prog)) {
      RunWithinStack(m, n, sticky, p, k);
      StepsSized(m, c0, k);
    }
  }

  lemma NextStep(m: Machine, c0: Config, i: nat, bound: nat)
    requires Safe(m, c0, bound)
    ensures Steps(m, c0, i + 1) == Step(m, Steps(m, c0, i))
    ensures Fits(m, Steps(m, c0, i), bound) && Fits(m, Steps(m, c0, i + 1), bound)
  {
    hide Step;
    hide Fits;
    StepsAdd(m, c0, i, 1);
    assert Steps(m, Steps(m, c0, i), 1) == Steps(m, Step(m, Steps(m, c0, i)), 0);
  }

  /** One turn of the `recurse` loop. */
  lemma UnwindStep(m: Machine, ret: bool, caps: seq<int>, saved: seq<Saved>)
    ensures var c := Step(m, if ret then Succeed(caps, saved) else Fail(saved));
      if saved == [] then c == Done(ret, if ret then caps else [])
      else
        var rest, top := saved[..|saved| - 1], saved[|saved| - 1];
        match top.kind
        case SplitState =>
          c == if ret then Succeed(caps, rest) else Run(top.pc, State(top.pos, top.caps), top.stack, rest)
        case GreedyQuantState => c == if ret then Succeed(caps, rest) else StepFail(m, saved)
        case LookaheadState => c == if ret then Run(top.pc, State(top.pos, caps), top.stack, rest) else Fail(rest)
        case NegativeLookaheadState =>
          c == if ret then Fail(rest) else Run(top.pc, State(top.pos, top.caps), top.stack, rest)
  {
  }

  /** What the stack instructions do. */
  lemma StackStep(m: Machine, i: Instr, next: int, s: State, stack: seq<int>, saved: seq<Saved>)
    requires IsStackOp(i)
    ensures var c, h := StepInstr(m, i, next, s, stack, saved), |stack| - 1;
      match i
      case PushI32(v) => c == Run(next, s, stack + [v], saved)
      case PushCharPos => c == Run(next, s, stack + [s.pos], saved)
      case Drop => c == if h < 0 then Stuck else Run(next, s, stack[..h], saved)
      case Loop(d) => c == if h < 0 then Stuck else
        Run(if stack[h] - 1 != 0 then next + d else next, s, stack[h := stack[h] - 1], saved)
      case CheckAdvance =>
        c == if h < 0 then Stuck else if stack[h] == s.pos then Fail(saved) else Run(next, s, stack[..h], saved)
  {
  }

  class Matcher {
    const m: Machine
    const capture: array<int>
    const stack: array<int>
    var stackLen: nat
    var pc: int
    var cptr: nat
    var saved: seq<Saved>

    ghost predicate Valid()
      reads this, capture, stack
    {
      capture != stack && stackLen <= stack.Length && capture.Length == 2 * m.e.groups
    }

    /** The configuration of the step function this state stands for. */
    ghost function Now(): Config
      reads this, capture, stack
      requires Valid()
    {
      Run(pc, State(cptr, capture[..]), stack[..stackLen], saved)
    }

    constructor (m: Machine, capture: array<int>, stackSize: nat, start: nat)
      requires capture.Length == 2 * m.e.groups
      ensures Valid() && this.m == m && this.capture == capture && stack.Length == stackSize && fresh(stack)
      ensures stackLen == 0 && pc == 0 && cptr == start && saved == []
    {
      this.m, this.capture, this.stack := m, capture, new int[stackSize];
      stackLen, pc, cptr, saved := 0, 0, start, [];
    }

    /** `push_state`: the captures and the used part of the stack are copied into the entry. */
    method PushState(kind: Kind, pc1: int, p: nat, count: nat)
      requires Valid()
      modifies this`saved
      ensures Valid() && saved == old(saved) + [Saved(kind, pc1, p, capture[..], stack[..stackLen], count)]
    {
      saved := saved + [Saved(kind, pc1, p, capture[..], stack[..stackLen], count)];
    }

    /** `memcpy` of the captures out of an entry. */
    method RestoreCaptures(caps: seq<int>)
      requires Valid() && |caps| == capture.Length
      modifies capture
      ensures capture[..] == caps
    {
      for i := 0 to capture.Length
        invariant capture[..i] == caps[..i]
      {
        capture[i] := caps[i];
      }
    }

    /** Resuming an entry: address, position and stack come back. */
    method Resume(e: Saved)
      requires Valid() && |e.stack| <= stack.Length
      modifies this`pc, this`cptr, this`stackLen, stack
      ensures Valid() && pc == e.pc && cptr == e.pos && stack[..stackLen] == e.stack
      ensures capture[..] == old(capture[..])
    {
      for i := 0 to |e.stack|
        modifies stack
        invariant stack[..i] == e.stack[..i]
      {
        stack[i] := e.stack[i];
      }
      pc, cptr, stackLen := e.pc, e.pos, |e.stack|;
    }

    method ResetRange(first: nat, last: int)
      requires Valid() && last < m.e.groups
      modifies capture
      ensures capture[..] == ResetCaps(old(capture[..]), first, last)
    {
      var v := first;
      while v <= last
        invariant first <= v
        invariant ResetCaps(capture[..], v, last) == ResetCaps(old(capture[..]), first, last)
        decreases last - v
      {
        ghost var before := capture[..];
        capture[2 * v] := -1;
        capture[2 * v + 1] := -1;
        assert capture[..] == SetCap(SetCap(before, 2 * v, -1), 2 * v + 1, -1);
        v := v + 1;
      }
    }

    /** One instruction, as the opcode switch executes it; `pc` is already past it. */
    method Execute(i: Instr) returns (sig: Signal)
      requires Valid() && ((i.Range? || i.Range32?) ==> |i.bounds| % 2 == 0)
      requires var c := StepInstr(m, i, pc, State(cptr, capture[..]), stack[..stackLen], saved);
        c != Stuck && (c.Run? ==> |c.stack| <= stack.Length)
      modifies this`pc, this`cptr, this`stackLen, this`saved, capture, stack
      ensures Valid()
      ensures After(sig) == old(StepInstr(m, i, pc, State(cptr, capture[..]), stack[..stackLen], saved))
    {
      sig := Go;
      if IsControl(i) {
        sig := ExecuteControl(i);
      } else if IsStackOp(i) {
        sig := ExecuteStack(i);
      } else if i.SaveStart? || i.SaveEnd? || i.SaveReset? {
        ExecuteSave(i);
      } else if i.BackReference? || i.BackwardBackReference? {
        sig := ExecuteBackReference(i);
      } else if i.SimpleGreedyQuant? {
        sig := ExecuteGreedy(i);
      } else {
        sig := ExecuteTest(i);
      }
    }

    /** The configuration after an instruction that ended with `sig`. */
    ghost function After(sig: Signal): Config
      reads this, capture, stack
      requires Valid()
    {
      match sig
      case Go => Now()
      case NoMatch => Fail(saved)
      case Matched => Succeed(capture[..], saved)
    }

    method ExecuteControl(i: Instr) returns (sig: Signal)
      requires Valid() && IsControl(i)
      modifies this`pc, this`cptr, this`saved
      ensures Valid()
      ensures After(sig) == old(StepInstr(m, i, pc, State(cptr, capture[..]), stack[..stackLen], saved))
    {
      sig := Go;
      match i
      case Goto(d) => pc := pc + d;
      case SplitGotoFirst(d) =>
        PushState(SplitState, pc, cptr, 0);
        pc := pc + d;
      case SplitNextFirst(d) => PushState(SplitState, pc + d, cptr, 0);
      case Lookahead(d) => PushState(LookaheadState, pc + d, cptr, 0);
      case NegativeLookahead(d) => PushState(NegativeLookaheadState, pc + d, cptr, 0);
      case Match => sig := Matched;
    }

    method ExecuteStack(i: Instr) returns (sig: Signal)
      requires Valid() && IsStackOp(i)
      requires var c := StepInstr(m, i, pc, State(cptr, capture[..]), stack[..stackLen], saved);
        c != Stuck && (c.Run? ==> |c.stack| <= stack.Length)
      modifies this`pc, this`stackLen, stack
      ensures Valid()
      ensures After(sig) == old(StepInstr(m, i, pc, State(cptr, capture[..]), stack[..stackLen], saved))
    {
      hide StepInstr;
      ghost var used := stack[..stackLen];
      StackStep(m, i, pc, State(cptr, capture[..]), used, saved);
      sig := Go;
      match i
      case PushI32(v) =>
        stack[stackLen] := v;
        stackLen := stackLen + 1;
      case Drop => stackLen := stackLen - 1;
      case Loop(d) =>
        stack[stackLen - 1] := stack[stackLen - 1] - 1;
        if stack[stackLen - 1] != 0 {
          pc := pc + d;
        }
      case PushCharPos =>
        stack[stackLen] := cptr;
        stackLen := stackLen + 1;
      case CheckAdvance =>
        stackLen := stackLen - 1;
        if stack[stackLen] == cptr {
          sig := NoMatch;
        }
    }

    method ExecuteSave(i: Instr)
      requires Valid() && (i.SaveStart? || i.SaveEnd? || i.SaveReset?)
      requires StepInstr(m, i, pc, State(cptr, capture[..]), stack[..stackLen], saved) != Stuck
      modifies capture
      ensures Valid()
      ensures Now() == old(StepInstr(m, i, pc, State(cptr, capture[..]), stack[..stackLen], saved))
    {
      match i
      case SaveStart(g) => capture[2 * g] := cptr;
      case SaveEnd(g) => capture[2 * g + 1] := cptr;
      case SaveReset(first, last) => ResetRange(first, last);
    }

    method ExecuteBackReference(i: Instr) returns (sig: Signal)
      requires Valid() && (i.BackReference? || i.BackwardBackReference?)
      requires StepInstr(m, i, pc, State(cptr, capture[..]), stack[..stackLen], saved) != Stuck
      modifies this`cptr
      ensures Valid()
      ensures After(sig) == old(StepInstr(m, i, pc, State(cptr, capture[..]), stack[..stackLen], saved))
    {
      if !(0 <= i.group < m.e.groups) {
        return NoMatch;
      }
      var start, end := capture[2 * i.group], capture[2 * i.group + 1];
      if start < 0 || end < 0 {
        return Go;
      }
      var q: int;
      if i.BackReference? {
        q := CompareForward(m.e.inp, start, end, cptr);
      } else {
        q := CompareBackward(m.e.inp, start, end, cptr);
      }
      if q < 0 {
        return NoMatch;
      }
      cptr := q;
      return Go;
    }

    /** Scan the atom as often as it matches, then remember how many matches may be given back. */
    method ExecuteGreedy(i: Instr) returns (sig: Signal)
      requires Valid() && i.SimpleGreedyQuant?
      requires StepInstr(m, i, pc, State(cptr, capture[..]), stack[..stackLen], saved) != Stuck
      modifies this`pc, this`cptr, this`saved
      ensures Valid()
      ensures After(sig) == old(StepInstr(m, i, pc, State(cptr, capture[..]), stack[..stackLen], saved))
    {
      hide GreedyScan;
      var scan := ScanAtoms(m, pc, cptr, i.max);
      var Scan(q, p) := scan;
      if q < i.min {
        return NoMatch;
      }
      cptr := p;
      if q > i.min {
        PushState(GreedyQuantState, pc - 16, cptr, q - i.min);
      }
      pc := pc + i.offset;
      return Go;
    }

    /** Character tests, assertions and the step back. */
    method ExecuteTest(i: Instr) returns (sig: Signal)
      requires Valid() && IsTest(i) && ((i.Range? || i.Range32?) ==> |i.bounds| % 2 == 0)
      requires StepInstr(m, i, pc, State(cptr, capture[..]), stack[..stackLen], saved) != Stuck
      modifies this`cptr
      ensures Valid()
      ensures After(sig) == old(StepInstr(m, i, pc, State(cptr, capture[..]), stack[..stackLen], saved))
    {
      hide CharTest;
      hide AssertionTest;
      if i.Prev? {
        if cptr == 0 {
          return NoMatch;
        }
        cptr := m.e.inp.Prev(cptr);
        return Go;
      }
      var a := AssertionTest(m.e, i, cptr);
      if a == Yes {
        return Go;
      } else if a == No || cptr >= |m.e.inp.units| {
        return NoMatch;
      }
      var c := m.e.inp.CharAt(cptr);
      var t := TestChar(i, c);
      if t == No {
        return NoMatch;
      }
      cptr := m.e.inp.Next(cptr);
      return Go;
    }

    /** A give-back: the entry on top keeps its place and loses one iteration. */
    method GiveBack()
      requires Valid() && saved != [] && saved[|saved| - 1].kind == GreedyQuantState
      requires |saved[|saved| - 1].caps| == capture.Length && |saved[|saved| - 1].stack| <= stack.Length
      requires StepFail(m, saved) != Stuck
      modifies this`pc, this`cptr, this`stackLen, this`saved, capture, stack
      ensures Valid() && Now() == old(StepFail(m, saved))
    {
      hide Input.PrevN;
      var last := |saved| - 1;
      var top := saved[last];
      RestoreCaptures(top.caps);
      Resume(top);
      var charCount := GetU32(m.bc, pc + 12);
      var p := StepBack(m.e.inp, cptr, charCount);
      cptr := p;
      pc := pc + 16 + AsInt(GetU32(m.bc, pc));
      saved := saved[..last] + [top.(pos := p, count := top.count - 1)];
      if top.count == 1 {
        saved := saved[..last];
      }
    }

    /** The `recurse` loop: entries are discarded until one resumes the execution or none is left. */
    method Unwind(matched: bool, ghost c0: Config, ghost i: nat) returns (over: bool, ret: bool, ghost j: nat)
      requires Valid() && Safe(m, c0, stack.Length)
      requires Steps(m, c0, i) == if matched then Succeed(capture[..], saved) else Fail(saved)
      modifies this`pc, this`cptr, this`stackLen, this`saved, capture, stack
      ensures Valid() && j > i
      ensures over && ret ==> Steps(m, c0, j) == Done(true, capture[..])
      ensures over && !ret ==> Steps(m, c0, j).Done? && !Steps(m, c0, j).matched
      ensures !over ==> Steps(m, c0, j) == Now()
    {
      hide Steps;
      hide Step;
      hide StepFail;
      hide StepSucceed;
      hide Safe;
      ret, j := matched, i;
      while true
        invariant Valid() && j >= i
        invariant Steps(m, c0, j) == if ret then Succeed(capture[..], saved) else Fail(saved)
        decreases |saved|
      {
        NextStep(m, c0, j, stack.Length);
        ghost var c := Steps(m, c0, j);
        UnwindStep(m, ret, capture[..], saved);
        j := j + 1;
        if saved == [] {
          return true, ret, j;
        }
        var top := saved[|saved| - 1];
        assert Entries(c)[|saved| - 1] == top;
        if top.kind == SplitState {
          if !ret {
            RestoreCaptures(top.caps);
            Resume(top);
            saved := saved[..|saved| - 1];
            return false, ret, j;
          }
        } else if top.kind == GreedyQuantState {
          if !ret {
            GiveBack();
            return false, ret, j;
          }
        } else {
          ret := (top.kind == LookaheadState && ret) || (top.kind == NegativeLookaheadState && !ret);
          if ret {
            if top.kind != LookaheadState {
              RestoreCaptures(top.caps);
            }
            Resume(top);
            saved := saved[..|saved| - 1];
            return false, ret, j;
          }
        }
        saved := saved[..|saved| - 1];
      }
    }
  }

  /** A run that is still going has not yet made all the steps to its end. */
  lemma StillRunning(m: Machine, c0: Config, i: nat, n: nat)
    requires Steps(m, c0, n).Done? && !Steps(m, c0, i).Done?
    ensures i < n
  {
    if n <= i {
      StepsAdd(m, c0, n, i - n);
      DoneStays(m, Steps(m, c0, n), i - n);
    }
  }

  lemma DoneOnce(m: Machine, c0: Config, i: nat, n: nat)
    requires Steps(m, c0, n).Done? && Steps(m, c0, i).Done?
    ensures Steps(m, c0, i) == Steps(m, c0, n)
  {
    if n <= i {
      StepsAdd(m, c0, n, i - n);
      DoneStays(m, Steps(m, c0, n), i - n);
    } else {
      StepsAdd(m, c0, i, n - i);
      DoneStays(m, Steps(m, c0, i), n - i);
    }
  }

  lemma RunStep(m: Machine, c: Config)
    requires c.Run? && Step(m, c) != Stuck
    ensures 0 <= c.pc && Decode(m.bc, c.pc).Fetched?
    ensures var i := Decode(m.bc, c.pc).i; Step(m, c) == StepInstr(m, i, c.pc + Size(i), c.s, c.stack, c.saved)
  {
    hide Decode;
    hide StepInstr;
  }

  /** `lre_exec`: the captures are cleared, then the opcode loop runs from the start of the program. On
      every compiled program it returns whether the pattern matches at all, and then leaves exactly
      the captures of the first match. */
  method Exec(m: Machine, capture: array<int>, stackSize: nat, cindex: nat, ghost n: Node, ghost sticky: bool)
    returns (ret: bool)
    requires Loaded(m, n, sticky) && m.e.inp.Boundary(cindex)
    requires stackSize == Peak(Program(n, sticky)) && capture.Length == 2 * m.e.groups
    modifies capture
    ensures ret == (AllMatches(m.e, n, sticky, cindex) != [])
    ensures ret ==> capture[..] == AllMatches(m.e, n, sticky, cindex)[0].caps
  {
    hide Steps;
    hide Step;
    hide StepInstr;
    hide Decode;
    hide Safe;
    hide Fits;
    hide Loaded;
    hide AllMatches;
    hide Size;
    hide Peak;
    hide Program;
    hide NoCaptures;
    hide Input.Boundary;
    ClearCaptures(capture, m.e.groups);
    var s := new Matcher(m, capture, stackSize, cindex);
    ghost var c0 := Run(0, Start(m.e, cindex), [], []);
    assert s.Now() == c0;
    MatchCorrect(m, n, sticky, cindex);
    LoadedSafe(m, n, sticky, cindex);
    ghost var end: nat :| Steps(m, c0, end) == Final(AllMatches(m.e, n, sticky, cindex));
    ghost var i: nat := 0;
    NoSteps(m, c0);
    while true
      invariant s.Valid() && s.m == m && s.capture == capture && s.stack.Length == stackSize && fresh(s)
      invariant fresh(s.stack)
      invariant Steps(m, c0, i) == s.Now()
      decreases end - i
    {
      StillRunning(m, c0, i, end);
      NextStep(m, c0, i, stackSize);
      NotStuck(m, Steps(m, c0, i + 1), stackSize);
      RunStep(m, s.Now());
      var f := Decode(m.bc, s.pc);
      DecodedSize(m.bc, s.pc);
      s.pc := s.pc + Size(f.i);
      var sig := s.Execute(f.i);
      i := i + 1;
      if sig != Go {
        ghost var j;
        var over;
        over, ret, j := s.Unwind(sig == Matched, c0, i);
        if over {
          DoneOnce(m, c0, j, end);
          return;
        }
        i := j;
      }
    }
  }

  method ClearCaptures(capture: array<int>, groups: nat)
    requires capture.Length == 2 * groups
    modifies capture
    ensures capture[..] == NoCaptures(groups)
  {
    for k := 0 to capture.Length
      invariant forall j :: 0 <= j < k ==> capture[j] == -1
    {
      capture[k] := -1;
    }
  }

  lemma NoSteps(m: Machine, c: Config)
    ensures Steps(m, c, 0) == c
  {
  }

  lemma NotStuck(m: Machine, c: Config, bound: nat)
    requires Fits(m, c, bound)
    ensures c != Stuck && (c.Run? ==> |c.stack| <= bound)
  {
  }
}
