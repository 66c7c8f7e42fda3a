/** The byte code of a pattern: what `re_parse_disjunction`, `re_parse_alternative` and
    `re_parse_term` leave in the buffer, as a list of instructions. */
module RegexCode {
  import opened Bytes
  import opened Instructions
  import opened RegexSemantics
  import PointSets

  /** Instructions that match one character. */
  predicate IsCharInstr(i: Instr) {
    i.Char8? || i.Char16? || i.Char32? || i.Dot? || i.Any? || i.Range? || i.Range32?
  }

  predicate IsAssertion(i: Instr) {
    i.LineStart? || i.LineEnd? || i.WordBoundary? || i.NotWordBoundary?
  }

  /** Instructions `re_need_check_advance` knows to leave the direction of travel alone. */
  predicate IsPredictable(i: Instr) {
    || IsCharInstr(i) || IsAssertion(i)
    || i.PushI32? || i.PushCharPos? || i.Drop? || i.Prev?
    || i.SaveStart? || i.SaveEnd? || i.SaveReset? || i.BackReference? || i.BackwardBackReference?
  }

  /** `re_is_simple_quantifier`: the number of characters the code matches, or -1. */
  function SimpleCount(code: seq<Instr>): (r: int)
    ensures r >= -1
  {
    if code == [] then 0
    else
      var rest := SimpleCount(code[1..]);
      if rest < 0 then -1
      else if IsCharInstr(code[0]) then rest + 1
      else if IsAssertion(code[0]) then rest
      else -1
  }

  /** `re_need_check_advance`: the code may leave the position where it is. */
  predicate MayStay(code: seq<Instr>) {
    !(AllPredictable(code) && HasChar(code))
  }

  predicate AllPredictable(code: seq<Instr>) {
    code == [] || (IsPredictable(code[0]) && AllPredictable(code[1..]))
  }

  predicate HasChar(code: seq<Instr>) {
    code != [] && (IsCharInstr(code[0]) || HasChar(code[1..]))
  }

  /** The change in stack height `lre_compute_stack_size` counts for an instruction. */
  function Delta(i: Instr): int {
    if i.PushI32? || i.PushCharPos? then 1 else if i.Drop? || i.CheckAdvance? then -1 else 0
  }

  /** The stack height after `code`, counted in program order. */
  function Depth(code: seq<Instr>): int {
    if code == [] then 0 else Delta(code[0]) + Depth(code[1..])
  }

  /** The greatest height on the way, at least 0: the stack size written to the header. */
  function Peak(code: seq<Instr>): (r: nat) {
    if code == [] then 0
    else
      var r := Delta(code[0]) + Peak(code[1..]);
      if r < 0 then 0 else r
  }

  function CharInstr(c: int): Instr {
    if c <= 0x7F then Char8(c) else if c <= 0xFFFF then Char16(c) else Char32(c)
  }

  /** The operands of the 16-bit form: inclusive upper ends, with 0xFFFF for infinity. */
  function Bounds16(p: seq<int>): (b: seq<int>)
    ensures |b| == |p|
  {
    seq(|p|, i requires 0 <= i < |p| =>
      if i % 2 == 0 then p[i] else if p[i] == PointSets.UINT32_MAX then 0xFFFF else p[i] - 1)
  }

  function Bounds32(p: seq<int>): (b: seq<int>)
    ensures |b| == |p|
  {
    seq(|p|, i requires 0 <= i < |p| => if i % 2 == 0 then p[i] else p[i] - 1)
  }

  /** `re_emit_range`; an empty class becomes a character that never occurs. */
  function ClassInstr(p: seq<int>): Instr {
    if |p| < 2 then Char32(PointSets.UINT32_MAX)
    else
      var last := p[|p| - 1];
      var high := if last == PointSets.UINT32_MAX then p[|p| - 2] else last;
      if high <= 0xFFFF then Range(Bounds16(p)) else Range32(Bounds32(p))
  }

  /** A character test travelling backwards steps back, tests forwards and steps back again. */
  function Directed(back: bool, i: Instr): seq<Instr> {
    if back then [Prev, i, Prev] else [i]
  }

  /** The split before an optional iteration: a greedy one tries the iteration first. */
  function Branch(greedy: bool, offset: int): Instr {
    if greedy then SplitNextFirst(offset) else SplitGotoFirst(offset)
  }

  function Guarded(check: bool, c: seq<Instr>): seq<Instr> {
    if check then [PushCharPos] + c + [CheckAdvance] else c
  }

  /** Code that runs the atom `min` times, with the captures reset first when `min` is 0. */
  function MandatoryCode(c: seq<Instr>, groups: nat, cap: nat, min: int): seq<Instr> {
    if min <= 0 then (if groups > 0 then [SaveReset(cap, cap + groups - 1)] else [])
    else if min == 1 then c
    else [PushI32(min)] + c + [Loop(-(Length(c) + 5))] + [Drop]
  }

  /** The loop around the guarded atom `g`: unbounded, or counting down the top of the stack. */
  function LoopCode(g: seq<Instr>, greedy: bool, unbounded: bool): seq<Instr> {
    if unbounded then [Branch(greedy, Length(g) + 5)] + g + [Goto(-(Length(g) + 10))]
    else [Branch(greedy, Length(g) + 5)] + g + [Loop(-(Length(g) + 10))] + [Drop]
  }

  /** Code that runs the guarded atom `g` up to `max - min` further times. */
  function OptionalCode(g: seq<Instr>, min: int, max: int, greedy: bool): seq<Instr> {
    if max == INFINITE then LoopCode(g, greedy, true)
    else if max <= min then []
    else if min == 0 && max == 1 then [Branch(greedy, Length(g))] + g
    else [PushI32(max - min)] + LoopCode(g, greedy, false)
  }

  /** The split after the atom of `a+`, back to its start. */
  function PlusBranch(greedy: bool, offset: int): Instr {
    if greedy then SplitGotoFirst(offset) else SplitNextFirst(offset)
  }

  /** A greedy quantifier over an atom of fixed character count. */
  predicate IsSimpleRepeat(c: seq<Instr>, max: int, greedy: bool) {
    greedy && max > 0 && SimpleCount(c) > 0
  }

  predicate IsPlus(c: seq<Instr>, min: int, max: int) {
    min == 1 && max == INFINITE && !MayStay(c)
  }

  function RepeatCode(c: seq<Instr>, groups: nat, cap: nat, min: int, max: int, greedy: bool): seq<Instr> {
    if IsSimpleRepeat(c, max, greedy) then
      [SimpleGreedyQuant(Length(c) + 1, min, max, SimpleCount(c))] + (c + [Match])
    else if IsPlus(c, min, max) then
      c + [PlusBranch(greedy, -(Length(c) + 5))]
    else
      MandatoryCode(c, groups, cap, min) + OptionalCode(Guarded(MayStay(c), c), min, max, greedy)
  }

  /** Two alternatives. */
  function EitherCode(ca: seq<Instr>, cb: seq<Instr>): seq<Instr> {
    [SplitNextFirst(Length(ca) + 5)] + ca + [Goto(Length(cb))] + cb
  }

  lemma EitherCodeIs(ca: seq<Instr>, cb: seq<Instr>)
    ensures EitherCode(ca, cb) == [SplitNextFirst(Length(ca) + 5)] + ca + [Goto(Length(cb))] + cb
  {
  }

  /** A lookaround. */
  function AroundCode(negated: bool, c: seq<Instr>): seq<Instr> {
    [if negated then NegativeLookahead(Length(c) + 1) else Lookahead(Length(c) + 1)] + c + [Match]
  }

  lemma AroundCodeIs(negated: bool, c: seq<Instr>)
    ensures AroundCode(negated, c)
         == [if negated then NegativeLookahead(Length(c) + 1) else Lookahead(Length(c) + 1)] + c + [Match]
  {
  }

  /** The code of `n` in direction `back`, whose first capture group is number `cap`. */
  function Code(n: Node, back: bool, cap: nat): seq<Instr>
    requires WellFormed(n)
  {
    match n
    case Empty => []
    case Char(c) => Directed(back, CharInstr(c))
    case AnyChar(lineTerminators) => Directed(back, if lineTerminators then Any else Dot)
    case Class(p) => Directed(back, ClassInstr(p))
    case LineStart => [Instr.LineStart]
    case LineEnd => [Instr.LineEnd]
    case WordBoundary(negated) => [if negated then NotWordBoundary else Instr.WordBoundary]
    case Cat(a, b) =>
      if back then Code(b, back, cap + Groups(a)) + Code(a, back, cap)
      else Code(a, back, cap) + Code(b, back, cap + Groups(a))
    case Alt(a, b) =>
      EitherCode(Code(a, back, cap), Code(b, back, cap + Groups(a)))
    case Capture(a) =>
      [if back then SaveEnd(cap) else SaveStart(cap)] + Code(a, back, cap + 1)
      + [if back then SaveStart(cap) else SaveEnd(cap)]
    case BackRef(g) => [if back then BackwardBackReference(g) else BackReference(g)]
    case Look(negated, behind, a) =>
      AroundCode(negated, Code(a, behind, cap))
    case Repeat(a, min, max, greedy) => RepeatCode(Code(a, back, cap), Groups(a), cap, min, max, greedy)
  }

  /** The loop over start positions, about the same as `.*?` over any character. */
  function SearchPrefix(): seq<Instr> {
    [SplitGotoFirst(6)] + [Any] + [Goto(-11)]
  }

  /** The whole program: the search prefix unless sticky, group 0 around the pattern, match. */
  function Program(n: Node, sticky: bool): seq<Instr>
    requires WellFormed(n)
  {
    (if sticky then [] else SearchPrefix()) + (Code(Capture(n), false, 0) + [Match])
  }
}
