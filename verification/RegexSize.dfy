/** The extent of a pattern's code, computed from the tree alone: how long it is, what the two byte scans find
    in it, and how much stack it takes. */
module RegexSize {
  import opened Instructions
  import opened RegexSemantics
  import opened RegexCode
  import opened RegexAnalysis
  import opened RegexLayout

  /** Bytes, characters matched or -1, whether all is predictable, whether there is a character test, the change in
      stack height and the greatest height. */
  datatype Extent = Extent(size: nat, count: int, steady: bool, hasChar: bool, depth: int, peak: nat)

  /** The extent of a list of instructions. */
  function ExtentOf(code: seq<Instr>): Extent {
    Extent(Length(code), SimpleCount(code), AllPredictable(code), HasChar(code), Depth(code), Peak(code))
  }

  function Highest(a: nat, b: int): nat {
    if a < b then b else a
  }

  /** One piece of code after another. */
  function Join(a: Extent, b: Extent): Extent {
    Extent(a.size + b.size, if a.count < 0 || b.count < 0 then -1 else a.count + b.count,
           a.steady && b.steady, a.hasChar || b.hasChar, a.depth + b.depth, Highest(a.peak, a.depth + b.peak))
  }

  const NOTHING: Extent := Extent(0, 0, true, false, 0, 0)

  /** A character test, an assertion, and the instructions the scan for advance does and does not know. */
  function CharExtent(size: nat): Extent { Extent(size, 1, true, true, 0, 0) }

  const ASSERTION: Extent := Extent(1, 0, true, false, 0, 0)

  function Plain(size: nat, delta: int): Extent { Extent(size, -1, true, false, delta, Highest(0, delta)) }

  function Jump(size: nat, delta: int): Extent { Extent(size, -1, false, false, delta, Highest(0, delta)) }

  // ----- The extent of a pattern -----

  function CharSize(c: int): nat {
    if c <= 0x7F then 2 else if c <= 0xFFFF then 3 else 5
  }

  function ClassSize(p: seq<int>): nat {
    if |p| < 2 then 5
    else
      var last := p[|p| - 1];
      if (if last == 0xFFFF_FFFF then p[|p| - 2] else last) <= 0xFFFF then 3 + 2 * |p| else 3 + 4 * |p|
  }

  function Sided(back: bool, e: Extent): Extent {
    if back then Join(Join(Plain(1, 0), e), Plain(1, 0)) else e
  }

  /** The atom may leave the position where it is. */
  predicate Stays(e: Extent) {
    !(e.steady && e.hasChar)
  }

  function GuardExtent(check: bool, e: Extent): Extent {
    if check then Join(Join(Plain(1, 1), e), Jump(1, -1)) else e
  }

  function MandatoryExtent(e: Extent, groups: nat, min: int): Extent {
    if min <= 0 then (if groups > 0 then Plain(3, 0) else NOTHING)
    else if min == 1 then e
    else Join(Join(Join(Plain(5, 1), e), Jump(5, 0)), Plain(1, -1))
  }

  function LoopExtent(g: Extent, unbounded: bool): Extent {
    var body := Join(Join(Jump(5, 0), g), Jump(5, 0));
    if unbounded then body else Join(body, Plain(1, -1))
  }

  function OptionalExtent(g: Extent, min: int, max: int): Extent {
    if max == INFINITE then LoopExtent(g, true)
    else if max <= min then NOTHING
    else if min == 0 && max == 1 then Join(Jump(5, 0), g)
    else Join(Plain(5, 1), LoopExtent(g, false))
  }

  function RepeatExtent(e: Extent, groups: nat, min: int, max: int, greedy: bool): Extent {
    if greedy && max > 0 && e.count > 0 then Join(Jump(17, 0), Join(e, Jump(1, 0)))
    else if min == 1 && max == INFINITE && !Stays(e) then Join(e, Jump(5, 0))
    else Join(MandatoryExtent(e, groups, min), OptionalExtent(GuardExtent(Stays(e), e), min, max))
  }

  function Measure(n: Node, back: bool): Extent {
    match n
    case Empty => NOTHING
    case Char(c) => Sided(back, CharExtent(CharSize(c)))
    case AnyChar(_) => Sided(back, CharExtent(1))
    case Class(p) => Sided(back, CharExtent(ClassSize(p)))
    case LineStart => ASSERTION
    case LineEnd => ASSERTION
    case WordBoundary(_) => ASSERTION
    case Cat(a, b) =>
      if back then Join(Measure(b, back), Measure(a, back)) else Join(Measure(a, back), Measure(b, back))
    case Alt(a, b) => Join(Join(Join(Jump(5, 0), Measure(a, back)), Jump(5, 0)), Measure(b, back))
    case Capture(a) => Join(Join(Plain(2, 0), Measure(a, back)), Plain(2, 0))
    case BackRef(_) => Plain(2, 0)
    case Look(_, behind, a) => Join(Join(Jump(5, 0), Measure(a, behind)), Jump(1, 0))
    case Repeat(a, min, max, greedy) => RepeatExtent(Measure(a, back), Groups(a), min, max, greedy)
  }

  /** The number of bytes of a pattern's code. */
  function CodeSize(n: Node, back: bool): nat {
    Measure(n, back).size
  }

  /** The extent of the whole program. */
  function ProgramExtent(n: Node, sticky: bool): Extent {
    Join(if sticky then NOTHING else Extent(11, -1, false, true, 0, 0), Join(Measure(Capture(n), false), Jump(1, 0)))
  }

  // ----- It is the extent of the code -----

  lemma {:induction false} PeakConcat(a: seq<Instr>, b: seq<Instr>)
    ensures Peak(a + b) == Highest(Peak(a), Depth(a) + Peak(b))
    decreases |a|
  {
    if a == [] {
      assert a + b == b;
    } else {
      assert (a + b)[1..] == a[1..] + b;
      PeakConcat(a[1..], b);
    }
  }

  lemma Joined(a: seq<Instr>, b: seq<Instr>)
    ensures ExtentOf(a + b) == Join(ExtentOf(a), ExtentOf(b))
  {
    LengthConcat(a, b);
    SimpleConcat(a, b);
    ScanConcat(a, b);
    DepthConcat(a, b);
    PeakConcat(a, b);
    hide Length;
    hide SimpleCount;
    hide AllPredictable;
    hide HasChar;
    hide Depth;
    hide Peak;
  }

  lemma Joined3(a: seq<Instr>, b: seq<Instr>, c: seq<Instr>)
    ensures ExtentOf(a + b + c) == Join(Join(ExtentOf(a), ExtentOf(b)), ExtentOf(c))
  {
    hide *;
    Joined(a + b, c);
    Joined(a, b);
  }

  lemma Joined4(a: seq<Instr>, b: seq<Instr>, c: seq<Instr>, d: seq<Instr>)
    ensures ExtentOf(a + b + c + d) == Join(Join(Join(ExtentOf(a), ExtentOf(b)), ExtentOf(c)), ExtentOf(d))
  {
    hide *;
    Joined(a + b + c, d);
    Joined3(a, b, c);
  }

  lemma OneExtent(i: Instr)
    ensures ExtentOf([i])
         == Extent(Size(i), if IsCharInstr(i) then 1 else if IsAssertion(i) then 0 else -1, IsPredictable(i),
                   IsCharInstr(i), Delta(i), Highest(0, Delta(i)))
  {
    SimpleOne(i);
    LengthOne(i);
    assert [i][1..] == [];
    assert Peak([i]) == Highest(0, Delta(i)) && Depth([i]) == Delta(i);
  }

  lemma NoExtent()
    ensures ExtentOf([]) == NOTHING
  {
  }

  /** The extents of the instructions without operands of varying length. */
  lemma Fixed(i: Instr)
    ensures i.Dot? || i.Any? ==> ExtentOf([i]) == CharExtent(1)
    ensures IsAssertion(i) ==> ExtentOf([i]) == ASSERTION
    ensures i.Prev? ==> ExtentOf([i]) == Plain(1, 0)
    ensures i.Drop? ==> ExtentOf([i]) == Plain(1, -1)
    ensures i.PushCharPos? ==> ExtentOf([i]) == Plain(1, 1)
    ensures i.CheckAdvance? ==> ExtentOf([i]) == Jump(1, -1)
    ensures i.Match? ==> ExtentOf([i]) == Jump(1, 0)
  {
    OneExtent(i);
  }

  lemma Operand(i: Instr)
    ensures i.SaveStart? || i.SaveEnd? || i.BackReference? || i.BackwardBackReference? ==> ExtentOf([i]) == Plain(2, 0)
    ensures i.SaveReset? ==> ExtentOf([i]) == Plain(3, 0)
    ensures i.PushI32? ==> ExtentOf([i]) == Plain(5, 1)
    ensures i.SimpleGreedyQuant? ==> ExtentOf([i]) == Jump(17, 0)
  {
    OneExtent(i);
  }

  lemma Jumps(i: Instr)
    ensures i.Goto? || i.SplitGotoFirst? || i.SplitNextFirst? || i.Lookahead? || i.NegativeLookahead? || i.Loop?
            ==> ExtentOf([i]) == Jump(5, 0)
  {
    OneExtent(i);
  }

  lemma CharInstrExtent(c: int)
    ensures ExtentOf([CharInstr(c)]) == CharExtent(CharSize(c))
  {
    OneExtent(CharInstr(c));
  }

  lemma ClassInstrExtent(p: seq<int>)
    requires |p| % 2 == 0
    ensures ExtentOf([ClassInstr(p)]) == CharExtent(ClassSize(p))
  {
    OneExtent(ClassInstr(p));
  }

  lemma SidedExtent(back: bool, i: Instr)
    ensures ExtentOf(Directed(back, i)) == Sided(back, ExtentOf([i]))
  {
    hide ExtentOf;
    Fixed(Prev);
    Joined3([Prev], [i], [Prev]);
    assert [Prev, i, Prev] == [Prev] + [i] + [Prev];
  }

  lemma GuardedExtent(check: bool, c: seq<Instr>)
    ensures ExtentOf(Guarded(check, c)) == GuardExtent(check, ExtentOf(c))
  {
    hide ExtentOf;
    if check {
      Fixed(PushCharPos);
      Fixed(CheckAdvance);
      Joined3([PushCharPos], c, [CheckAdvance]);
    }
  }

  lemma MandatoryCodeExtent(c: seq<Instr>, groups: nat, cap: nat, min: int)
    ensures ExtentOf(MandatoryCode(c, groups, cap, min)) == MandatoryExtent(ExtentOf(c), groups, min)
  {
    hide ExtentOf;
    hide Length;
    if min <= 0 {
      NoExtent();
      Operand(SaveReset(cap, cap + groups - 1));
    } else if min > 1 {
      Operand(PushI32(min));
      Jumps(Loop(-(Length(c) + 5)));
      Fixed(Drop);
      Joined4([PushI32(min)], c, [Loop(-(Length(c) + 5))], [Drop]);
    }
  }

  lemma BranchIs(greedy: bool, d: int)
    ensures ExtentOf([Branch(greedy, d)]) == Jump(5, 0) && ExtentOf([PlusBranch(greedy, d)]) == Jump(5, 0)
  {
    Jumps(Branch(greedy, d));
    Jumps(PlusBranch(greedy, d));
    hide ExtentOf;
  }

  lemma LoopCodeExtent(g: seq<Instr>, greedy: bool, unbounded: bool)
    ensures ExtentOf(LoopCode(g, greedy, unbounded)) == LoopExtent(ExtentOf(g), unbounded)
  {
    hide ExtentOf;
    hide Length;
    var x := Branch(greedy, Length(g) + 5);
    BranchIs(greedy, Length(g) + 5);
    if unbounded {
      Jumps(Goto(-(Length(g) + 10)));
      Joined3([x], g, [Goto(-(Length(g) + 10))]);
    } else {
      Jumps(Loop(-(Length(g) + 10)));
      Fixed(Drop);
      Joined4([x], g, [Loop(-(Length(g) + 10))], [Drop]);
    }
  }

  lemma OptionalCodeExtent(g: seq<Instr>, min: int, max: int, greedy: bool)
    ensures ExtentOf(OptionalCode(g, min, max, greedy)) == OptionalExtent(ExtentOf(g), min, max)
  {
    hide ExtentOf;
    hide Length;
    hide LoopCode;
    LoopCodeExtent(g, greedy, max == INFINITE);
    if max != INFINITE && max > min {
      if min == 0 && max == 1 {
        BranchIs(greedy, Length(g));
        Joined([Branch(greedy, Length(g))], g);
      } else {
        Operand(PushI32(max - min));
        Joined([PushI32(max - min)], LoopCode(g, greedy, false));
      }
    } else if max != INFINITE {
      NoExtent();
    }
  }

  lemma ScanExtents(c: seq<Instr>)
    ensures ExtentOf(c).count == SimpleCount(c) && Stays(ExtentOf(c)) == MayStay(c)
  {
  }

  lemma RepeatCodeExtent(c: seq<Instr>, groups: nat, cap: nat, min: int, max: int, greedy: bool)
    ensures ExtentOf(RepeatCode(c, groups, cap, min, max, greedy))
         == RepeatExtent(ExtentOf(c), groups, min, max, greedy)
  {
    ScanExtents(c);
    hide ExtentOf;
    hide Length;
    hide SimpleCount;
    hide MayStay;
    hide MandatoryCode;
    hide OptionalCode;
    hide Guarded;
    hide MandatoryExtent;
    hide OptionalExtent;
    hide GuardExtent;
    hide Join;
    if IsSimpleRepeat(c, max, greedy) {
      var i := SimpleGreedyQuant(Length(c) + 1, min, max, SimpleCount(c));
      Operand(i);
      Fixed(Match);
      Joined([i], c + [Match]);
      Joined(c, [Match]);
    } else if IsPlus(c, min, max) {
      var x := PlusBranch(greedy, -(Length(c) + 5));
      BranchIs(greedy, -(Length(c) + 5));
      Joined(c, [x]);
    } else {
      var g := Guarded(MayStay(c), c);
      GuardedExtent(MayStay(c), c);
      MandatoryCodeExtent(c, groups, cap, min);
      OptionalCodeExtent(g, min, max, greedy);
      Joined(MandatoryCode(c, groups, cap, min), OptionalCode(g, min, max, greedy));
    }
  }

  lemma EitherExtent(ca: seq<Instr>, cb: seq<Instr>)
    ensures ExtentOf(EitherCode(ca, cb)) == Join(Join(Join(Jump(5, 0), ExtentOf(ca)), Jump(5, 0)), ExtentOf(cb))
  {
    hide *;
    EitherCodeIs(ca, cb);
    Jumps(SplitNextFirst(Length(ca) + 5));
    Jumps(Goto(Length(cb)));
    Joined4([SplitNextFirst(Length(ca) + 5)], ca, [Goto(Length(cb))], cb);
  }

  lemma AroundExtent(negated: bool, c: seq<Instr>)
    ensures ExtentOf(AroundCode(negated, c)) == Join(Join(Jump(5, 0), ExtentOf(c)), Jump(1, 0))
  {
    hide *;
    AroundCodeIs(negated, c);
    var i := if negated then NegativeLookahead(Length(c) + 1) else Lookahead(Length(c) + 1);
    Jumps(i);
    Fixed(Match);
    Joined3([i], c, [Match]);
  }

  lemma CaptureExtent(back: bool, cap: nat, c: seq<Instr>)
    ensures ExtentOf([if back then SaveEnd(cap) else SaveStart(cap)] + c
                     + [if back then SaveStart(cap) else SaveEnd(cap)])
         == Join(Join(Plain(2, 0), ExtentOf(c)), Plain(2, 0))
  {
    hide *;
    var i, j := if back then SaveEnd(cap) else SaveStart(cap), if back then SaveStart(cap) else SaveEnd(cap);
    Operand(i);
    Operand(j);
    Joined3([i], c, [j]);
  }

  lemma LeafExtent(n: Node, back: bool, cap: nat)
    requires WellFormed(n) && !n.Cat? && !n.Alt? && !n.Capture? && !n.Look? && !n.Repeat?
    ensures ExtentOf(Code(n, back, cap)) == Measure(n, back)
  {
    hide ExtentOf;
    hide Directed;
    hide CharInstr;
    hide ClassInstr;
    hide Sided;
    match n
    case Empty => NoExtent();
    case Char(c) =>
      CharInstrExtent(c);
      SidedExtent(back, CharInstr(c));
    case AnyChar(b) =>
      Fixed(if b then Any else Dot);
      SidedExtent(back, if b then Any else Dot);
    case Class(p) =>
      ClassInstrExtent(p);
      SidedExtent(back, ClassInstr(p));
    case LineStart => Fixed(Instr.LineStart);
    case LineEnd => Fixed(Instr.LineEnd);
    case WordBoundary(negated) => Fixed(if negated then NotWordBoundary else Instr.WordBoundary);
    case BackRef(g) => Operand(if back then BackwardBackReference(g) else BackReference(g));
  }

  lemma MeasureIs(n: Node, back: bool)
    ensures n.Cat? ==> Measure(n, back) == if back then Join(Measure(n.right, back), Measure(n.left, back))
                                           else Join(Measure(n.left, back), Measure(n.right, back))
    ensures n.Alt? ==>
      Measure(n, back) == Join(Join(Join(Jump(5, 0), Measure(n.left, back)), Jump(5, 0)), Measure(n.right, back))
    ensures n.Capture? ==> Measure(n, back) == Join(Join(Plain(2, 0), Measure(n.body, back)), Plain(2, 0))
    ensures n.Look? ==> Measure(n, back) == Join(Join(Jump(5, 0), Measure(n.body, n.behind)), Jump(1, 0))
    ensures n.Repeat? ==>
      Measure(n, back) == RepeatExtent(Measure(n.body, back), Groups(n.body), n.min, n.max, n.greedy)
  {
    hide Join;
    hide RepeatExtent;
  }

  /** The measure of a pattern is the extent of its code. */
  lemma {:induction false} Measured(n: Node, back: bool, cap: nat)
    requires WellFormed(n)
    ensures ExtentOf(Code(n, back, cap)) == Measure(n, back)
    decreases n
  {
    hide *;
    MeasureIs(n, back);
    match n
    case Cat(a, b) =>
      CatCode(n, back, cap);
      Measured(a, back, cap);
      Measured(b, back, cap + Groups(a));
      if back {
        Joined(Code(b, back, cap + Groups(a)), Code(a, back, cap));
      } else {
        Joined(Code(a, back, cap), Code(b, back, cap + Groups(a)));
      }
    case Alt(a, b) =>
      AltCode(n, back, cap);
      Measured(a, back, cap);
      Measured(b, back, cap + Groups(a));
      EitherExtent(Code(a, back, cap), Code(b, back, cap + Groups(a)));
    case Capture(a) =>
      CaptureCode(n, back, cap);
      Measured(a, back, cap + 1);
      CaptureExtent(back, cap, Code(a, back, cap + 1));
    case Look(negated, behind, a) =>
      LookCode(n, back, cap);
      Measured(a, behind, cap);
      AroundExtent(negated, Code(a, behind, cap));
    case Repeat(a, min, max, greedy) =>
      RepeatCodeIs(n, back, cap);
      Measured(a, back, cap);
      RepeatCodeExtent(Code(a, back, cap), Groups(a), cap, min, max, greedy);
    case _ => LeafExtent(n, back, cap);
  }

  lemma ExtentParts(code: seq<Instr>)
    ensures ExtentOf(code).size == Length(code) && ExtentOf(code).peak == Peak(code)
    ensures ExtentOf(code).depth == Depth(code)
  {
  }

  lemma CodeSizeIs(n: Node, back: bool)
    ensures CodeSize(n, back) == Measure(n, back).size
  {
  }

  /** The length of a pattern's code is its size. */
  lemma LengthIsCodeSize(n: Node, back: bool, cap: nat)
    requires WellFormed(n)
    ensures Length(Code(n, back, cap)) == CodeSize(n, back)
  {
    hide *;
    Measured(n, back, cap);
    ExtentParts(Code(n, back, cap));
    CodeSizeIs(n, back);
  }

  lemma PrefixExtent()
    ensures ExtentOf(SearchPrefix()) == Extent(11, -1, false, true, 0, 0)
  {
    Jumps(SplitGotoFirst(6));
    Fixed(Any);
    Jumps(Goto(-11));
    Joined3([SplitGotoFirst(6)], [Any], [Goto(-11)]);
    hide ExtentOf;
  }

  /** So is the extent of the program. */
  lemma ProgramMeasured(n: Node, sticky: bool)
    requires WellFormed(n)
    ensures ExtentOf(Program(n, sticky)) == ProgramExtent(n, sticky)
    ensures Length(Program(n, sticky)) == ProgramExtent(n, sticky).size
    ensures Peak(Program(n, sticky)) == ProgramExtent(n, sticky).peak
  {
    hide *;
    ProgramIs(n, sticky);
    var prefix, body := if sticky then [] else SearchPrefix(), Code(Capture(n), false, 0) + [Match];
    ProgramExtentIs(n, sticky);
    Measured(Capture(n), false, 0);
    Fixed(Match);
    Joined(Code(Capture(n), false, 0), [Match]);
    Joined(prefix, body);
    PrefixExtent();
    NoExtent();
    ExtentParts(Program(n, sticky));
  }

  lemma ProgramExtentIs(n: Node, sticky: bool)
    ensures ProgramExtent(n, sticky)
         == Join(if sticky then NOTHING else Extent(11, -1, false, true, 0, 0),
                 Join(Measure(Capture(n), false), Jump(1, 0)))
  {
    hide Join;
    hide Measure;
  }
}
