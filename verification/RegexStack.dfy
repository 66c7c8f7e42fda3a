/** At every reachable instruction the run-time stack is exactly as high as the linear scan of
    `lre_compute_stack_size` says, so it never outgrows the size in the header. */
module RegexStack {
  import opened Bytes
  import opened Instructions
  import opened RegexSemantics
  import opened RegexFacts
  import opened RegexCode
  import opened RegexAnalysis
  import opened RegexClass
  import opened RegexGreedy
  import opened RegexMachine
  import opened RegexLayout
  import opened RegexMatch

  // ----- every operand the compiler writes fits its field -----

  /** The operands other than jump offsets fit; a jump is as long as the characters it skips count. */
  predicate OperandsFit(i: Instr) {
    if i.SimpleGreedyQuant? then 0 <= i.min <= i.max <= INFINITE && 0 <= i.count <= i.offset
    else IsJump(i) || Encodable(i)
  }

  ghost predicate AllFit(c: seq<Instr>) {
    forall i :: i in c ==> OperandsFit(i)
  }

  lemma FitPlain()
    ensures OperandsFit(Drop) && OperandsFit(Match) && OperandsFit(PushCharPos) && OperandsFit(CheckAdvance)
    ensures OperandsFit(Prev) && OperandsFit(Any)
  {
  }

  lemma FitBranch(greedy: bool, d: int)
    ensures OperandsFit(Branch(greedy, d)) && OperandsFit(PlusBranch(greedy, d)) && OperandsFit(Goto(d))
    ensures OperandsFit(Instr.Loop(d))
    ensures OperandsFit(SplitNextFirst(d)) && OperandsFit(Lookahead(d)) && OperandsFit(NegativeLookahead(d))
    ensures OperandsFit(SplitGotoFirst(d))
  {
  }

  lemma FitSaves(g: nat, h: nat)
    requires g < 255 && h < 255
    ensures OperandsFit(SaveStart(g)) && OperandsFit(SaveEnd(g)) && OperandsFit(SaveReset(g, h))
  {
  }

  lemma FitPush(v: int)
    requires 0 <= v <= INFINITE
    ensures OperandsFit(PushI32(v))
  {
  }

  lemma FitOptional(g: seq<Instr>, min: int, max: int, greedy: bool)
    requires AllFit(g) && 0 <= min <= max <= INFINITE
    ensures AllFit(OptionalCode(g, min, max, greedy))
  {
    InfiniteSize();
    hide *;
    OptionalIs(g, min, max, greedy);
    FitBranch(greedy, Length(g));
    if max == INFINITE {
      FitLoop(g, greedy, true);
    } else if max <= min {
      FitNone();
    } else if min == 0 && max == 1 {
      FitPrefix(Branch(greedy, Length(g)), g);
    } else {
      FitPush(max - min);
      FitLoop(g, greedy, false);
      FitPrefix(PushI32(max - min), LoopCode(g, greedy, false));
    }
  }

  lemma OptionalIs(g: seq<Instr>, min: int, max: int, greedy: bool)
    ensures OptionalCode(g, min, max, greedy)
         == if max == INFINITE then LoopCode(g, greedy, true) else if max <= min then []
            else if min == 0 && max == 1 then [Branch(greedy, Length(g))] + g
            else [PushI32(max - min)] + LoopCode(g, greedy, false)
  {
  }

  lemma LoopParts(g: seq<Instr>, greedy: bool)
    ensures var d: int := -(Length(g) + 10); var x := Branch(greedy, Length(g) + 5);
      && LoopCode(g, greedy, true) == [x] + g + [Goto(d)]
      && LoopCode(g, greedy, false) == [x] + g + [Instr.Loop(d)] + [Drop]
  {
    hide Length;
    hide Branch;
  }

  lemma FitLoop(g: seq<Instr>, greedy: bool, unbounded: bool)
    requires AllFit(g)
    ensures AllFit(LoopCode(g, greedy, unbounded))
  {
    hide *;
    LoopParts(g, greedy);
    FitPlain();
    var d: int := -(Length(g) + 10);
    FitBranch(greedy, Length(g) + 5);
    FitBranch(greedy, d);
    if unbounded {
      FitFrame(Branch(greedy, Length(g) + 5), g, Goto(d));
    } else {
      FitFrame(Branch(greedy, Length(g) + 5), g, Instr.Loop(d));
      FitSuffix([Branch(greedy, Length(g) + 5)] + g + [Instr.Loop(d)], Drop);
    }
  }

  lemma InfiniteSize()
    ensures INFINITE == 0x7FFF_FFFF
  {
  }

  lemma FitPrefix(x: Instr, m: seq<Instr>)
    requires OperandsFit(x) && AllFit(m)
    ensures AllFit([x] + m)
  {
    hide OperandsFit;
  }

  lemma FitNone()
    ensures AllFit([])
  {
  }

  lemma FitSimple(c: seq<Instr>, min: int, max: int)
    requires AllFit(c) && 0 <= min <= max <= INFINITE && SimpleCount(c) >= 0
    ensures AllFit([SimpleGreedyQuant(Length(c) + 1, min, max, SimpleCount(c))] + (c + [Match]))
  {
    hide *;
    var x := SimpleGreedyQuant(Length(c) + 1, min, max, SimpleCount(c));
    SimpleBound(c);
    FitQuant(x);
    FitPlain();
    FitSuffix(c, Match);
    FitConcat([x], c + [Match]);
  }

  lemma FitQuant(i: Instr)
    requires i.SimpleGreedyQuant? && 0 <= i.min <= i.max <= INFINITE && 0 <= i.count <= i.offset
    ensures OperandsFit(i) && AllFit([i])
  {
    assert OperandsFit(i);
    hide OperandsFit;
  }

  lemma FitMandatory(c: seq<Instr>, groups: nat, cap: nat, min: int)
    requires AllFit(c) && cap + groups <= 255 && 0 <= min <= INFINITE
    ensures AllFit(MandatoryCode(c, groups, cap, min))
  {
    hide Length;
    hide OperandsFit;
    FitPlain();
    FitBranch(false, -(Length(c) + 5));
    FitPush(min);
    if groups > 0 {
      FitSaves(cap, cap + groups - 1);
    }
  }

  lemma FitGuarded(check: bool, c: seq<Instr>)
    requires AllFit(c)
    ensures AllFit(Guarded(check, c))
  {
    hide OperandsFit;
    FitPlain();
  }

  lemma FitConcat(a: seq<Instr>, b: seq<Instr>)
    requires AllFit(a) && AllFit(b)
    ensures AllFit(a + b)
  {
    hide OperandsFit;
  }

  lemma FitFrame(x: Instr, m: seq<Instr>, y: Instr)
    requires OperandsFit(x) && AllFit(m) && OperandsFit(y)
    ensures AllFit([x] + m + [y])
  {
    hide OperandsFit;
  }

  lemma FitSuffix(m: seq<Instr>, y: Instr)
    requires AllFit(m) && OperandsFit(y)
    ensures AllFit(m + [y])
  {
    hide OperandsFit;
  }

  lemma FitRepeat(c: seq<Instr>, groups: nat, cap: nat, min: int, max: int, greedy: bool)
    requires AllFit(c) && cap + groups <= 255 && 0 <= min <= max <= INFINITE
    ensures AllFit(RepeatCode(c, groups, cap, min, max, greedy))
  {
    hide Length;
    hide SimpleCount;
    hide MayStay;
    hide OptionalCode;
    hide MandatoryCode;
    hide Guarded;
    hide PlusBranch;
    hide AllFit;
    hide OperandsFit;
    if IsSimpleRepeat(c, max, greedy) {
      FitSimple(c, min, max);
    } else if IsPlus(c, min, max) {
      FitBranch(greedy, -(Length(c) + 5));
      FitSuffix(c, PlusBranch(greedy, -(Length(c) + 5)));
    } else {
      var g := Guarded(MayStay(c), c);
      FitGuarded(MayStay(c), c);
      FitOptional(g, min, max, greedy);
      FitMandatory(c, groups, cap, min);
      FitConcat(MandatoryCode(c, groups, cap, min), OptionalCode(g, min, max, greedy));
    }
  }

  lemma FitLeaf(n: Node, back: bool, cap: nat)
    requires WellFormed(n) && !n.Cat? && !n.Alt? && !n.Capture? && !n.Look? && !n.Repeat?
    ensures AllFit(Code(n, back, cap))
  {
    if IsOneChar(n) {
      hide *;
      CharNodeEncodable(n);
      OneCharCode(n, back, cap);
      FitDirected(back, CharNodeInstr(n));
    }
  }

  lemma OneCharCode(n: Node, back: bool, cap: nat)
    requires WellFormed(n) && IsOneChar(n)
    ensures Code(n, back, cap) == Directed(back, CharNodeInstr(n))
  {
    hide ClassInstr;
    hide CharInstr;
  }

  lemma FitDirected(back: bool, i: Instr)
    requires Encodable(i) && IsCharInstr(i)
    ensures AllFit(Directed(back, i))
  {
    FitPlain();
    FitChar(i);
    hide OperandsFit;
    hide Encodable;
    hide IsCharInstr;
  }

  lemma FitChar(i: Instr)
    requires Encodable(i) && IsCharInstr(i)
    ensures OperandsFit(i)
  {
  }

  lemma {:induction false} CodeFit(n: Node, back: bool, cap: nat)
    requires WellFormed(n) && cap + Groups(n) <= 255
    ensures AllFit(Code(n, back, cap))
    decreases n
  {
    hide *;
    GroupsOf(n);
    match n
    case Cat(a, b) =>
      CatCode(n, back, cap);
      CodeFit(a, back, cap);
      CodeFit(b, back, cap + Groups(a));
      if back {
        FitConcat(Code(b, back, cap + Groups(a)), Code(a, back, cap));
      } else {
        FitConcat(Code(a, back, cap), Code(b, back, cap + Groups(a)));
      }
    case Alt(a, b) =>
      AltCode(n, back, cap);
      CodeFit(a, back, cap);
      CodeFit(b, back, cap + Groups(a));
      FitAlt(Code(a, back, cap), Code(b, back, cap + Groups(a)));
    case Capture(a) =>
      CaptureCode(n, back, cap);
      CodeFit(a, back, cap + 1);
      FitCapture(back, cap, Code(a, back, cap + 1));
    case Look(negated, behind, a) =>
      LookCode(n, back, cap);
      CodeFit(a, behind, cap);
      FitLook(negated, Code(a, behind, cap));
    case Repeat(a, min, max, greedy) =>
      RepeatCodeIs(n, back, cap);
      CodeFit(a, back, cap);
      FitRepeat(Code(a, back, cap), Groups(a), cap, min, max, greedy);
    case _ => FitLeaf(n, back, cap);
  }

  lemma FitCapture(back: bool, cap: nat, c: seq<Instr>)
    requires AllFit(c) && cap < 255
    ensures AllFit([if back then SaveEnd(cap) else SaveStart(cap)] + c
      + [if back then SaveStart(cap) else SaveEnd(cap)])
  {
    hide *;
    FitSaves(cap, cap);
    FitFrame(if back then SaveEnd(cap) else SaveStart(cap), c, if back then SaveStart(cap) else SaveEnd(cap));
  }

  lemma FitLook(negated: bool, c: seq<Instr>)
    requires AllFit(c)
    ensures AllFit(AroundCode(negated, c))
  {
    hide *;
    AroundCodeIs(negated, c);
    FitPlain();
    FitBranch(false, Length(c) + 1);
    FitFrame(if negated then NegativeLookahead(Length(c) + 1) else Lookahead(Length(c) + 1), c, Match);
  }

  lemma FitAlt(ca: seq<Instr>, cb: seq<Instr>)
    requires AllFit(ca) && AllFit(cb)
    ensures AllFit(EitherCode(ca, cb))
  {
    EitherCodeIs(ca, cb);
    FitBranch(false, Length(ca) + 5);
    FitBranch(false, Length(cb));
    hide *;
    FitFrame(SplitNextFirst(Length(ca) + 5), ca, Goto(Length(cb)));
    FitConcat([SplitNextFirst(Length(ca) + 5)] + ca + [Goto(Length(cb))], cb);
  }

  lemma GroupsOf(n: Node)
    requires WellFormed(n)
    ensures n.Cat? || n.Alt?
            ==> WellFormed(n.left) && WellFormed(n.right) && Groups(n) == Groups(n.left) + Groups(n.right)
    ensures n.Capture? ==> WellFormed(n.body) && Groups(n) == 1 + Groups(n.body)
    ensures n.Look? ==> WellFormed(n.body) && Groups(n) == Groups(n.body)
    ensures n.Repeat? ==> WellFormed(n.body) && Groups(n) == Groups(n.body) && 0 <= n.min <= n.max <= INFINITE
  {
  }

  lemma {:induction false} LengthPrefix(c: seq<Instr>, j: nat)
    requires j <= |c|
    ensures Length(c[..j]) <= Length(c)
  {
    assert c == c[..j] + c[j..];
    LengthConcat(c[..j], c[j..]);
  }

  /** A jump that lands is no longer than the program. */
  lemma FitEncodable(c: seq<Instr>, i: nat)
    requires JumpsLand(c) && AllFit(c) && Length(c) < TWO_TO_THE_31 && i < |c|
    ensures Encodable(c[i])
  {
    assert c[i] in c && OperandsFit(c[i]);
    if IsJump(c[i]) {
      JumpShort(c, i);
      EncodableShort(c[i]);
    }
  }

  lemma EncodableShort(i: Instr)
    requires IsJump(i) && OperandsFit(i) && IsOffset(i.offset)
    ensures Encodable(i)
  {
  }

  lemma JumpShort(c: seq<Instr>, i: nat)
    requires JumpsLand(c) && Length(c) < TWO_TO_THE_31 && i < |c| && IsJump(c[i])
    ensures IsOffset(c[i].offset)
  {
    hide Length;
    hide Depth;
    hide Lands;
    hide JumpsLand;
    LandsEverywhere(c, i);
    var j := LandingOf(c, i);
    LengthPrefix(c, j);
    LengthPrefix(c, i + 1);
    OffsetOf(Length(c[..j]), Length(c[..i + 1]), c[i].offset);
  }

  lemma OffsetOf(a: nat, b: nat, d: int)
    requires a < TWO_TO_THE_31 && b < TWO_TO_THE_31 && a == b + d
    ensures IsOffset(d)
  {
  }

  lemma LandsEverywhere(c: seq<Instr>, i: nat)
    requires JumpsLand(c) && i < |c| && IsJump(c[i])
    ensures Lands(c, i)
  {
  }

  lemma PrefixFit()
    ensures AllFit([]) && AllFit(SearchPrefix())
  {
    FitPlain();
    FitBranch(false, 6);
    FitBranch(false, -11);
    hide OperandsFit;
  }

  lemma ProgramFit(n: Node, sticky: bool)
    requires WellFormed(n) && Groups(n) < 255
    ensures AllFit(Program(n, sticky))
  {
    ProgramIs(n, sticky);
    hide Program;
    hide WellFormed;
    hide Groups;
    hide Code;
    hide OperandsFit;
    hide AllFit;
    hide SearchPrefix;
    CodeFit(Capture(n), false, 0);
    FitPlain();
    PrefixFit();
    FitSuffix(Code(Capture(n), false, 0), Match);
    FitConcat(if sticky then [] else SearchPrefix(), Code(Capture(n), false, 0) + [Match]);
  }

  // ----- the discipline every run keeps -----

  /** `pc` is the boundary before instruction `j`, where the linear height is `h`. */
  ghost predicate Mark(prog: seq<Instr>, pc: int, h: nat, j: nat) {
    j <= |prog| && pc == Length(prog[..j]) && h == Depth(prog[..j])
  }

  ghost predicate AtMark(prog: seq<Instr>, pc: int, h: nat) {
    exists j: nat :: Mark(prog, pc, h, j)
  }

  /** A greedy entry points at the operands of its instruction, any other at a boundary. */
  ghost predicate EntryOk(prog: seq<Instr>, e: Saved) {
    if e.kind == GreedyQuantState
    then exists j: nat :: j < |prog| && prog[j].SimpleGreedyQuant? && Mark(prog, e.pc - 1, |e.stack|, j)
    else AtMark(prog, e.pc, |e.stack|)
  }

  ghost predicate AllEntriesOk(prog: seq<Instr>, k: seq<Saved>) {
    forall i :: 0 <= i < |k| ==> EntryOk(prog, k[i])
  }

  ghost predicate Disciplined(prog: seq<Instr>, c: Config) {
    match c
    case Run(pc, _, stack, saved) => AtMark(prog, pc, |stack|) && AllEntriesOk(prog, saved)
    case Succeed(_, saved) => AllEntriesOk(prog, saved)
    case Fail(saved) => AllEntriesOk(prog, saved)
    case _ => true
  }

  ghost predicate Sound(m: Machine, prog: seq<Instr>) {
    && Tidy(prog) && m.bc == Assemble(prog)
    && forall i :: 0 <= i < |prog| ==> Encodable(prog[i])
  }

  lemma MarkNext(prog: seq<Instr>, j: nat)
    requires j < |prog|
    ensures Length(prog[..j + 1]) == Length(prog[..j]) + Size(prog[j])
    ensures Depth(prog[..j + 1]) == Depth(prog[..j]) + Delta(prog[j])
  {
    assert prog[..j + 1] == prog[..j] + [prog[j]];
    hide Length;
    hide Depth;
    hide Size;
    hide Delta;
    LengthConcat(prog[..j], [prog[j]]);
    DepthConcat(prog[..j], [prog[j]]);
    LengthOne(prog[j]);
    SingleInstr(prog[j]);
  }

  lemma SplitAt(prog: seq<Instr>, j: nat)
    requires j < |prog|
    ensures prog == prog[..j] + [prog[j]] + prog[j + 1..]
  {
  }

  lemma CodeAtStart(m: Machine, prog: seq<Instr>)
    requires m.bc == Assemble(prog)
    ensures CodeAt(m.bc, 0, prog)
  {
    assert m.bc[0..|m.bc|] == m.bc;
  }

  /** What stands at a boundary is the instruction of the program. */
  lemma FetchAt(m: Machine, prog: seq<Instr>, j: nat)
    requires Sound(m, prog) && j < |prog|
    ensures Decode(m.bc, Length(prog[..j])) == Fetched(prog[j])
  {
    hide Decode;
    hide CodeAt;
    hide Length;
    hide Tidy;
    hide Encodable;
    hide Assemble;
    CodeAtStart(m, prog);
    SplitAt(prog, j);
    CodeSplit3(m.bc, 0, prog[..j], [prog[j]], prog[j + 1..]);
    CodeFetch(m.bc, Length(prog[..j]), prog[j]);
  }

  lemma FetchEnd(m: Machine, prog: seq<Instr>)
    requires Sound(m, prog)
    ensures Decode(m.bc, Length(prog[..|prog|])) == Invalid
  {
    assert prog[..|prog|] == prog;
  }

  /** A jump keeps the discipline: it lands on a boundary of the same height. */
  lemma JumpMark(prog: seq<Instr>, j: nat, h: nat)
    requires Tidy(prog) && j < |prog| && IsJump(prog[j]) && h == Depth(prog[..j])
    ensures AtMark(prog, Length(prog[..j + 1]) + prog[j].offset, h)
  {
    hide *;
    TidyParts(prog);
    LandsEverywhere(prog, j);
    var t := LandingOf(prog, j);
    MarkNext(prog, j);
    JumpSize(prog[j]);
    MarkIntro(prog, t, h);
  }

  lemma NextMark(prog: seq<Instr>, j: nat, h: int)
    requires j < |prog| && h == Depth(prog[..j]) + Delta(prog[j]) && h >= 0
    ensures AtMark(prog, Length(prog[..j]) + Size(prog[j]), h)
  {
    MarkNext(prog, j);
    hide *;
    MarkIntro(prog, j + 1, h);
  }

  lemma MarkIntro(prog: seq<Instr>, j: nat, h: nat)
    requires j <= |prog| && h == Depth(prog[..j])
    ensures AtMark(prog, Length(prog[..j]), h)
  {
    assert Mark(prog, Length(prog[..j]), h, j);
  }

  lemma Pushed(prog: seq<Instr>, k: seq<Saved>, e: Saved)
    requires AllEntriesOk(prog, k) && EntryOk(prog, e)
    ensures AllEntriesOk(prog, k + [e])
  {
    hide EntryOk;
  }

  lemma Popped(prog: seq<Instr>, k: seq<Saved>)
    requires AllEntriesOk(prog, k) && k != []
    ensures AllEntriesOk(prog, k[..|k| - 1]) && EntryOk(prog, k[|k| - 1])
  {
    hide EntryOk;
  }

  lemma InstrDisciplined(m: Machine, prog: seq<Instr>, j: nat, s: State, stack: seq<int>, saved: seq<Saved>)
    requires Sound(m, prog) && j < |prog| && |stack| == Depth(prog[..j]) && AllEntriesOk(prog, saved)
    ensures Disciplined(prog, StepInstr(m, prog[j], Length(prog[..j + 1]), s, stack, saved))
  {
    hide *;
    var i := prog[j];
    MarkNext(prog, j);
    SoundTidy(m, prog);
    if i.SimpleGreedyQuant? {
      GreedyDisciplined(m, prog, j, s, stack, saved);
    } else if IsJump(i) {
      JumpSize(i);
      JumpMark(prog, j, |stack|);
      NextMark(prog, j, |stack|);
      JumpStep(m, prog, i, Length(prog[..j + 1]), s, stack, saved);
    } else {
      if |stack| + Delta(i) >= 0 {
        NextMark(prog, j, |stack| + Delta(i));
      }
      PlainStep(m, prog, i, Length(prog[..j + 1]), s, stack, saved);
    }
  }

  lemma PlainStep(m: Machine, prog: seq<Instr>, i: Instr, next: int, s: State, stack: seq<int>, saved: seq<Saved>)
    requires !IsJump(i) && AllEntriesOk(prog, saved)
    requires |stack| + Delta(i) >= 0 ==> AtMark(prog, next, |stack| + Delta(i))
    ensures Disciplined(prog, StepInstr(m, i, next, s, stack, saved))
  {
    hide AtMark;
    hide AllEntriesOk;
    hide CharTest;
    hide AssertionTest;
    hide SameForward;
    hide SameBackward;
    hide ResetCaps;
  }

  lemma JumpStep(m: Machine, prog: seq<Instr>, i: Instr, next: int, s: State, stack: seq<int>, saved: seq<Saved>)
    requires IsJump(i) && !i.SimpleGreedyQuant? && AllEntriesOk(prog, saved)
    requires AtMark(prog, next, |stack|) && AtMark(prog, next + i.offset, |stack|)
    ensures Disciplined(prog, StepInstr(m, i, next, s, stack, saved))
  {
    hide AtMark;
    Pushed(prog, saved, Saved(SplitState, next, s.pos, s.caps, stack, 0));
    Pushed(prog, saved, Saved(SplitState, next + i.offset, s.pos, s.caps, stack, 0));
    Pushed(prog, saved, Saved(LookaheadState, next + i.offset, s.pos, s.caps, stack, 0));
    Pushed(prog, saved, Saved(NegativeLookaheadState, next + i.offset, s.pos, s.caps, stack, 0));
    hide AllEntriesOk;
  }

  lemma GreedyDisciplined(m: Machine, prog: seq<Instr>, j: nat, s: State, stack: seq<int>, saved: seq<Saved>)
    requires Sound(m, prog) && j < |prog| && |stack| == Depth(prog[..j]) && AllEntriesOk(prog, saved)
    requires prog[j].SimpleGreedyQuant?
    ensures Disciplined(prog, StepInstr(m, prog[j], Length(prog[..j + 1]), s, stack, saved))
  {
    hide *;
    var i, next := prog[j], Length(prog[..j + 1]);
    MarkNext(prog, j);
    QuantJump(i);
    JumpSize(i);
    SoundTidy(m, prog);
    JumpMark(prog, j, |stack|);
    GreedyStep(m, prog, j, next, s, stack, saved);
  }

  lemma QuantJump(i: Instr)
    requires i.SimpleGreedyQuant?
    ensures IsJump(i)
  {
  }

  lemma GreedyEntryOk(prog: seq<Instr>, j: nat, next: int, e: Saved)
    requires j < |prog| && prog[j].SimpleGreedyQuant? && next == Length(prog[..j]) + 17 && |e.stack| == Depth(prog[..j])
    requires e.kind == GreedyQuantState && e.pc == next - 16
    ensures EntryOk(prog, e)
  {
    hide Length;
    hide Depth;
    assert Mark(prog, e.pc - 1, |e.stack|, j);
  }

  lemma GreedyStep(m: Machine, prog: seq<Instr>, j: nat, next: int, s: State, stack: seq<int>, saved: seq<Saved>)
    requires j < |prog| && prog[j].SimpleGreedyQuant? && AllEntriesOk(prog, saved)
    requires AtMark(prog, next + prog[j].offset, |stack|)
    requires next == Length(prog[..j]) + 17 && |stack| == Depth(prog[..j])
    ensures Disciplined(prog, StepInstr(m, prog[j], next, s, stack, saved))
  {
    hide AtMark;
    hide GreedyScan;
    hide EntryOk;
    hide Length;
    hide Depth;
    match GreedyScan(m, next, s.pos, prog[j].max, 0)
    case NoScan =>
    case Scan(q, p) =>
      if q > prog[j].min {
        var e := Saved(GreedyQuantState, next - 16, p, s.caps, stack, q - prog[j].min);
        GreedyEntryOk(prog, j, next, e);
        Pushed(prog, saved, e);
      }
  }

  lemma SoundTidy(m: Machine, prog: seq<Instr>)
    requires Sound(m, prog)
    ensures Tidy(prog)
  {
  }

  /** Every step keeps the discipline. */
  lemma StepDisciplined(m: Machine, prog: seq<Instr>, c: Config)
    requires Sound(m, prog) && Disciplined(prog, c)
    ensures Disciplined(prog, Step(m, c))
  {
    match c
    case Run(pc, s, stack, saved) =>
      var j: nat :| Mark(prog, pc, |stack|, j);
      RunDisciplined(m, prog, j, c);
    case Succeed(caps, saved) => SucceedDisciplined(prog, caps, saved);
    case Fail(saved) => FailDisciplined(m, prog, saved);
    case _ =>
  }

  lemma RunDisciplined(m: Machine, prog: seq<Instr>, j: nat, c: Config)
    requires Sound(m, prog) && c.Run? && Mark(prog, c.pc, |c.stack|, j) && AllEntriesOk(prog, c.saved)
    ensures Disciplined(prog, Step(m, c))
  {
    hide Length;
    hide Depth;
    hide Sound;
    hide AllEntriesOk;
    hide StepInstr;
    hide Decode;
    hide Size;
    if j == |prog| {
      FetchEnd(m, prog);
    } else {
      FetchAt(m, prog, j);
      MarkNext(prog, j);
      InstrDisciplined(m, prog, j, c.s, c.stack, c.saved);
    }
  }

  lemma SucceedDisciplined(prog: seq<Instr>, caps: seq<int>, saved: seq<Saved>)
    requires AllEntriesOk(prog, saved)
    ensures Disciplined(prog, StepSucceed(caps, saved))
  {
    if saved != [] {
      Popped(prog, saved);
    }
    hide AllEntriesOk;
  }

  lemma FailDisciplined(m: Machine, prog: seq<Instr>, saved: seq<Saved>)
    requires Sound(m, prog) && AllEntriesOk(prog, saved)
    ensures Disciplined(prog, StepFail(m, saved))
  {
    hide *;
    NothingDisciplined(prog);
    if saved == [] {
      FailEmpty(m);
    } else {
      Popped(prog, saved);
      if saved[|saved| - 1].kind == GreedyQuantState {
        GreedyFailDisciplined(m, prog, saved);
      } else {
        PlainFailDisciplined(m, prog, saved);
      }
    }
  }

  lemma NothingDisciplined(prog: seq<Instr>)
    ensures Disciplined(prog, Done(false, []))
  {
  }

  lemma FailEmpty(m: Machine)
    ensures StepFail(m, []) == Done(false, [])
  {
  }

  lemma PlainFailDisciplined(m: Machine, prog: seq<Instr>, saved: seq<Saved>)
    requires saved != [] && AllEntriesOk(prog, saved[..|saved| - 1]) && EntryOk(prog, saved[|saved| - 1])
    requires saved[|saved| - 1].kind != GreedyQuantState
    ensures Disciplined(prog, StepFail(m, saved))
  {
    hide AllEntriesOk;
    hide AtMark;
  }

  lemma GreedyFailDisciplined(m: Machine, prog: seq<Instr>, saved: seq<Saved>)
    requires Sound(m, prog) && saved != [] && AllEntriesOk(prog, saved[..|saved| - 1])
    requires EntryOk(prog, saved[|saved| - 1])
    requires saved[|saved| - 1].kind == GreedyQuantState
    ensures Disciplined(prog, StepFail(m, saved))
  {
    hide AllEntriesOk;
    hide Sound;
    hide EntryOk;
    hide AtMark;
    hide StepFail;
    GreedyFails(m, saved);
    if StepFail(m, saved).Run? {
      var p := GiveBackStep(m, saved);
      GiveBackDisciplined(m, prog, saved[..|saved| - 1], saved[|saved| - 1], p);
    }
  }

  lemma GreedyFails(m: Machine, saved: seq<Saved>)
    requires saved != [] && saved[|saved| - 1].kind == GreedyQuantState
    ensures StepFail(m, saved).Run? || StepFail(m, saved).Stuck?
  {
  }

  /** What a give-back step does, in terms of the entry it leaves. */
  lemma GiveBackStep(m: Machine, saved: seq<Saved>) returns (p: nat)
    requires saved != [] && saved[|saved| - 1].kind == GreedyQuantState && StepFail(m, saved).Run?
    ensures var rest, top, c := saved[..|saved| - 1], saved[|saved| - 1], StepFail(m, saved);
      && 0 <= top.pc && top.pc + 16 <= |m.bc| && top.count > 0
      && c.pc == top.pc + 16 + AsInt(GetU32(m.bc, top.pc)) && c.stack == top.stack
      && (c.saved == rest || c.saved == rest + [top.(pos := p, count := top.count - 1)])
  {
    var top := saved[|saved| - 1];
    hide AsInt;
    hide GetU32;
    p := m.e.inp.PrevN(top.pos, GetU32(m.bc, top.pc + 12));
  }

  /** A give-back step leaves its own entry in order and resumes after its instruction. */
  lemma GiveBackDisciplined(m: Machine, prog: seq<Instr>, rest: seq<Saved>, top: Saved, p: nat)
    requires Sound(m, prog) && AllEntriesOk(prog, rest) && EntryOk(prog, top) && top.kind == GreedyQuantState
    requires 0 <= top.pc && top.pc + 16 <= |m.bc| && top.count > 0
    ensures AtMark(prog, top.pc + 16 + AsInt(GetU32(m.bc, top.pc)), |top.stack|)
    ensures AllEntriesOk(prog, rest + [top.(pos := p, count := top.count - 1)])
  {
    hide *;
    var j := GreedyMark(prog, top);
    var e := top.(pos := p, count := top.count - 1);
    OperandsAt(m, prog, j);
    MarkNext(prog, j);
    QuantJump(prog[j]);
    JumpSize(prog[j]);
    SoundTidy(m, prog);
    JumpMark(prog, j, |top.stack|);
    GreedyEntryOk(prog, j, Length(prog[..j]) + 17, e);
    Pushed(prog, rest, e);
  }

  lemma GreedyMark(prog: seq<Instr>, e: Saved) returns (j: nat)
    requires EntryOk(prog, e) && e.kind == GreedyQuantState
    ensures j < |prog| && prog[j].SimpleGreedyQuant? && e.pc == Length(prog[..j]) + 1 && |e.stack| == Depth(prog[..j])
  {
    hide Length;
    hide Depth;
    j :| j < |prog| && prog[j].SimpleGreedyQuant? && Mark(prog, e.pc - 1, |e.stack|, j);
  }

  lemma OperandsAt(m: Machine, prog: seq<Instr>, j: nat)
    requires Sound(m, prog) && j < |prog| && prog[j].SimpleGreedyQuant?
    ensures var pc := Length(prog[..j]); pc + 17 <= |m.bc| && AsInt(GetU32(m.bc, pc + 1)) == prog[j].offset
  {
    hide Decode;
    hide CodeAt;
    hide Length;
    hide Tidy;
    hide Encodable;
    hide Assemble;
    CodeAtStart(m, prog);
    SplitAt(prog, j);
    CodeSplit3(m.bc, 0, prog[..j], [prog[j]], prog[j + 1..]);
    CodeAtOne(m.bc, Length(prog[..j]), prog[j]);
    DecodeQuant(m.bc, Length(prog[..j]), prog[j]);
  }

  lemma {:induction false} RunsDisciplined(m: Machine, prog: seq<Instr>, c: Config, i: nat)
    requires Sound(m, prog) && Disciplined(prog, c)
    ensures Disciplined(prog, Steps(m, c, i))
    decreases i
  {
    hide Sound;
    hide Disciplined;
    if i > 0 {
      StepDisciplined(m, prog, c);
      RunsDisciplined(m, prog, Step(m, c), i - 1);
    }
  }

  // ----- the bound -----

  lemma {:induction false} DepthPeak(c: seq<Instr>, j: nat)
    requires j <= |c|
    ensures Depth(c[..j]) <= Peak(c)
    decreases j
  {
    if j > 0 {
      assert c[..j][1..] == c[1..][..j - 1];
      DepthPeak(c[1..], j - 1);
    }
  }

  lemma {:induction false} StuckStays(m: Machine, n: nat)
    ensures Steps(m, Stuck, n) == Stuck
    decreases n
  {
    if n > 0 {
      StuckStays(m, n - 1);
    }
  }

  lemma {:induction false} DoneStays(m: Machine, c: Config, n: nat)
    requires c.Done?
    ensures Steps(m, c, n) == c
    decreases n
  {
    if n > 0 {
      DoneStays(m, c, n - 1);
    }
  }

  lemma LoadedSound(m: Machine, n: Node, sticky: bool)
    requires Loaded(m, n, sticky)
    ensures Sound(m, Program(n, sticky))
  {
    var prog := Program(n, sticky);
    ProgramTidy(n, sticky);
    ProgramFit(n, sticky);
    TidyParts(prog);
    hide Program;
    hide AllFit;
    hide Tidy;
    hide JumpsLand;
    forall i | 0 <= i < |prog| ensures Encodable(prog[i]) {
      FitEncodable(prog, i);
    }
  }

  /** A configuration of a run of the compiled program: at an instruction boundary, with the stack
      exactly as high as the linear scan says, so within the size in the header. */
  ghost predicate WithinStack(prog: seq<Instr>, c: Config) {
    && c != Stuck
    && (c.Run? ==> exists j: nat :: j < |prog| && Mark(prog, c.pc, |c.stack|, j) && |c.stack| <= Peak(prog))
    && forall i :: 0 <= i < |Entries(c)| ==> |Entries(c)[i].stack| <= Peak(prog)
  }

  /** The state stack of a configuration. */
  function Entries(c: Config): seq<Saved> {
    if c.Run? || c.Succeed? || c.Fail? then c.saved else []
  }

  /** Every configuration of every run of a compiled program, from any start. */
  lemma RunWithinStack(m: Machine, n: Node, sticky: bool, p: nat, i: nat)
    requires Loaded(m, n, sticky) && m.e.inp.Boundary(p)
    ensures WithinStack(Program(n, sticky), Steps(m, Run(0, Start(m.e, p), [], []), i))
  {
    var prog, c0 := Program(n, sticky), Run(0, Start(m.e, p), [], []);
    hide *;
    MatchCorrect(m, n, sticky, p);
    LoadedSound(m, n, sticky);
    StartDisciplined(prog, c0);
    RunsDisciplined(m, prog, c0, i);
    RunsDisciplined(m, prog, c0, i + 1);
    NeverStuck(m, c0, AllMatches(m.e, n, sticky, p), i);
    NeverStuck(m, c0, AllMatches(m.e, n, sticky, p), i + 1);
    StepsAdd(m, c0, i, 1);
    BoundedConfig(m, prog, Steps(m, c0, i));
  }

  lemma StartDisciplined(prog: seq<Instr>, c: Config)
    requires c.Run? && c.pc == 0 && c.stack == [] && c.saved == []
    ensures Disciplined(prog, c)
  {
    assert prog[..0] == [];
    assert Mark(prog, 0, 0, 0);
  }

  lemma NeverStuck(m: Machine, c: Config, xs: seq<State>, i: nat)
    requires Reaches(m, c, Final(xs))
    ensures Steps(m, c, i) != Stuck
  {
    hide Step;
    var n: nat :| Steps(m, c, n) == Final(xs);
    hide Reaches;
    hide Steps;
    if i <= n {
      StepsAdd(m, c, i, n - i);
      StuckStays(m, n - i);
    } else {
      StepsAdd(m, c, n, i - n);
      DoneStays(m, Final(xs), i - n);
    }
  }

  lemma BoundedConfig(m: Machine, prog: seq<Instr>, c: Config)
    requires Sound(m, prog) && Disciplined(prog, c) && c != Stuck && Steps(m, c, 1) != Stuck
    ensures WithinStack(prog, c)
  {
    if c.Run? {
      assert Step(m, c) != Stuck by {
        assert Steps(m, c, 1) == Steps(m, Step(m, c), 0);
      }
      var j: nat :| Mark(prog, c.pc, |c.stack|, j);
      if j == |prog| {
        FetchEnd(m, prog);
      }
      DepthPeak(prog, j);
    }
    forall i | 0 <= i < |Entries(c)| ensures |Entries(c)[i].stack| <= Peak(prog) {
      EntryBound(prog, Entries(c)[i]);
    }
  }

  lemma EntryBound(prog: seq<Instr>, e: Saved)
    requires EntryOk(prog, e)
    ensures |e.stack| <= Peak(prog)
  {
    if e.kind == GreedyQuantState {
      var j: nat :| j < |prog| && prog[j].SimpleGreedyQuant? && Mark(prog, e.pc - 1, |e.stack|, j);
      DepthPeak(prog, j);
    } else {
      var j: nat :| Mark(prog, e.pc, |e.stack|, j);
      DepthPeak(prog, j);
    }
  }
}
