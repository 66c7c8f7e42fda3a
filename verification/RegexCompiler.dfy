/** `re_parse_disjunction`, `re_parse_alternative`, `re_parse_term` and `lre_compile` on a pattern that
    has been read into a tree: what they leave in the buffer is exactly the code of the pattern. */
module RegexCompiler {
  import opened Bytes
  import opened Instructions
  import opened RegexSemantics
  import opened RegexCode
  import opened RegexAnalysis
  import opened RegexScan
  import opened RegexLayout
  import opened RegexStack
  import opened RegexBuffer
  import opened RegexQuantify
  import opened RegexLimits
  import PointSets

  const CAPTURE_COUNT_MAX: int := 255

  datatype CompileError = TooManyCaptures | TooManyRanges | OutOfMemory | TooManyQuantifiers

  datatype Status = Ok | Err(error: CompileError)

  /** What the parser guarantees before the code of a class is emitted. */
  ghost predicate Parsed(n: Node) {
    match n
    case Char(c) => 0 <= c < 0x110000
    case Class(p) => PointSets.Canonical(p) && forall i :: 0 <= i < |p| ==> 0 <= p[i] <= PointSets.UINT32_MAX
    case Cat(a, b) => Parsed(a) && Parsed(b)
    case Alt(a, b) => Parsed(a) && Parsed(b)
    case Capture(a) => Parsed(a)
    case BackRef(g) => 1 <= g < 255
    case Look(_, _, a) => Parsed(a)
    case Repeat(a, min, max, _) => Parsed(a) && 0 <= min <= max <= INFINITE
    case _ => true
  }

  // ----- the terms of an alternative, the alternatives of a disjunction -----

  function Terms(n: Node): (ts: seq<Node>)
    ensures n.Cat? ==> forall t :: t in ts ==> t < n
    ensures !n.Cat? ==> ts == [] || ts == [n]
  {
    match n
    case Empty => []
    case Cat(a, b) => Terms(a) + [b]
    case _ => [n]
  }

  function Alternatives(n: Node): (ts: seq<Node>)
    ensures ts != []
    ensures n.Alt? ==> forall t :: t in ts ==> t < n
    ensures !n.Alt? ==> ts == [n]
  {
    match n
    case Alt(a, b) => Alternatives(a) + [b]
    case _ => [n]
  }

  /** The terms read so far, as one node. */
  function CatOf(ts: seq<Node>): Node {
    if ts == [] then Empty else Cat(CatOf(ts[..|ts| - 1]), ts[|ts| - 1])
  }

  function AltOf(ts: seq<Node>): Node
    requires ts != []
  {
    if |ts| == 1 then ts[0] else Alt(AltOf(ts[..|ts| - 1]), ts[|ts| - 1])
  }

  lemma {:induction false} CatOfTerms(n: Node)
    requires Parsed(n)
    ensures Parsed(CatOf(Terms(n))) && Groups(CatOf(Terms(n))) == Groups(n)
    ensures WellFormed(CatOf(Terms(n))) <==> WellFormed(n)
  {
    hide *;
    TermsShape(n);
    if n.Cat? {
      CatOfTerms(n.left);
      CatOfCat(n.left, n.right);
      CatFacts(n.left, n.right);
      CatFacts(CatOf(Terms(n.left)), n.right);
    } else if !n.Empty? {
      CatOfSingle(n);
      CatFacts(Empty, n);
      EmptyFacts();
    }
  }

  lemma TermsShape(n: Node)
    requires Parsed(n)
    ensures n.Cat? ==> Parsed(n.left) && Parsed(n.right)
    ensures n.Empty? ==> CatOf(Terms(n)) == n
    ensures !n.Cat? && !n.Empty? ==> Terms(n) == [n]
  {
  }

  lemma EmptyFacts()
    ensures Parsed(Empty) && WellFormed(Empty) && Groups(Empty) == 0
  {
  }

  lemma CatFacts(a: Node, b: Node)
    ensures Parsed(Cat(a, b)) <==> Parsed(a) && Parsed(b)
    ensures WellFormed(Cat(a, b)) <==> WellFormed(a) && WellFormed(b)
    ensures Groups(Cat(a, b)) == Groups(a) + Groups(b)
  {
  }

  lemma CatOfSingle(n: Node)
    requires Terms(n) == [n]
    ensures CatOf(Terms(n)) == Cat(Empty, n)
  {
    assert [n][..0] == [];
  }

  lemma CatOfCat(a: Node, b: Node)
    ensures CatOf(Terms(Cat(a, b))) == Cat(CatOf(Terms(a)), b)
  {
    var ts := Terms(a) + [b];
    assert Terms(Cat(a, b)) == ts && ts[..|ts| - 1] == Terms(a);
  }

  /** Reading a concatenation term by term gives the code of the concatenation. */
  lemma {:induction false} CatOfTermsCode(n: Node, back: bool, cap: nat)
    requires WellFormed(n) && Parsed(n)
    ensures WellFormed(CatOf(Terms(n))) && Groups(CatOf(Terms(n))) == Groups(n)
    ensures Code(CatOf(Terms(n)), back, cap) == Code(n, back, cap)
  {
    hide *;
    CatOfTerms(n);
    TermsShape(n);
    if n.Cat? {
      var a, b := n.left, n.right;
      CatFacts(a, b);
      CatOfCat(a, b);
      CatOfTermsCode(a, back, cap);
      CatCode(n, back, cap);
      CatCode(Cat(CatOf(Terms(a)), b), back, cap);
    } else if !n.Empty? {
      CatOfOne(n, back, cap);
    }
  }

  lemma CatOfOne(n: Node, back: bool, cap: nat)
    requires WellFormed(n) && Terms(n) == [n]
    ensures WellFormed(CatOf(Terms(n))) && Groups(CatOf(Terms(n))) == Groups(n)
    ensures Code(CatOf(Terms(n)), back, cap) == Code(n, back, cap)
  {
    hide *;
    CatOfSingle(n);
    EmptyFacts();
    CatFacts(Empty, n);
    EmptyCode(back, cap);
    CatCode(Cat(Empty, n), back, cap);
  }

  lemma EmptyCode(back: bool, cap: nat)
    ensures WellFormed(Empty) && Groups(Empty) == 0 && Code(Empty, back, cap) == []
  {
  }

  lemma {:induction false} AltOfAlternatives(n: Node)
    ensures AltOf(Alternatives(n)) == n
  {
    match n
    case Alt(a, b) =>
      AltOfAlternatives(a);
      assert Alternatives(n)[..|Alternatives(n)| - 1] == Alternatives(a);
    case _ =>
  }

  lemma {:induction false} PartsParsed(n: Node)
    requires Parsed(n)
    ensures forall t :: t in Terms(n) ==> Parsed(t)
    ensures forall t :: t in Alternatives(n) ==> Parsed(t)
  {
    match n
    case Cat(a, b) => PartsParsed(a);
    case Alt(a, b) => PartsParsed(a);
    case _ =>
  }

  lemma CatMore(ts: seq<Node>, i: nat)
    requires i < |ts|
    ensures CatOf(ts[..i + 1]) == Cat(CatOf(ts[..i]), ts[i])
  {
    assert ts[..i + 1][..i] == ts[..i];
  }

  lemma AltMore(ts: seq<Node>, i: nat)
    requires 0 < i < |ts|
    ensures AltOf(ts[..i + 1]) == Alt(AltOf(ts[..i]), ts[i])
  {
    assert ts[..i + 1][..i] == ts[..i];
  }

  // ----- what a parsing step promises -----

  /** From capture count `cap0` and buffer `before` to `cap1` and `after`, having read `n`. */
  ghost predicate Emitted(n: Node, back: bool, cap0: nat, before: seq<byte>, cap1: nat, after: seq<byte>) {
    && WellFormed(n)
    && cap1 == cap0 + Groups(n) <= CAPTURE_COUNT_MAX
    && Adds(before, after, Code(n, back, cap0))
  }

  /** An error is reported only for its reason. */
  ghost predicate Refused(e: CompileError, n: Node, cap0: nat, after: seq<byte>) {
    match e
    case TooManyCaptures => cap0 + Groups(n) > CAPTURE_COUNT_MAX
    case TooManyRanges => !WellFormed(n)
    case OutOfMemory => |after| >= SIZE_MAX
    case TooManyQuantifiers => false
  }

  ghost predicate Outcome(r: Status, n: Node, back: bool, cap0: nat, before: seq<byte>, cap1: nat, after: seq<byte>) {
    match r
    case Ok => Emitted(n, back, cap0, before, cap1, after)
    case Err(e) => Refused(e, n, cap0, after)
  }

  lemma OutcomeParts(r: Status, n: Node, back: bool, cap0: nat, before: seq<byte>, cap1: nat, after: seq<byte>)
    requires Outcome(r, n, back, cap0, before, cap1, after)
    ensures r.Ok? ==> Emitted(n, back, cap0, before, cap1, after)
    ensures r.Err? ==> Refused(r.error, n, cap0, after)
  {
  }

  lemma OutcomeErr(e: CompileError, n: Node, back: bool, cap0: nat, before: seq<byte>, cap1: nat, after: seq<byte>)
    requires Refused(e, n, cap0, after)
    ensures Outcome(Err(e), n, back, cap0, before, cap1, after)
  {
  }

  lemma OutcomeOk(n: Node, back: bool, cap0: nat, before: seq<byte>, cap1: nat, after: seq<byte>)
    requires Emitted(n, back, cap0, before, cap1, after)
    ensures Outcome(Ok, n, back, cap0, before, cap1, after)
  {
  }

  lemma PartsOk(n: Node)
    requires Parsed(n)
    ensures forall i :: 0 <= i < |Alternatives(n)| ==> Parsed(Alternatives(n)[i])
    ensures n.Alt? ==> forall i :: 0 <= i < |Alternatives(n)| ==> Alternatives(n)[i] < n
    ensures !n.Alt? ==> Alternatives(n) == [n]
    ensures forall i :: 0 <= i < |Terms(n)| ==> Parsed(Terms(n)[i])
    ensures n.Cat? ==> forall i :: 0 <= i < |Terms(n)| ==> Terms(n)[i] < n
    ensures !n.Cat? ==> (n.Empty? && Terms(n) == []) || (!n.Empty? && Terms(n) == [n])
  {
    PartsParsed(n);
  }

  lemma RefusedPart(e: CompileError, n: Node, part: Node, skipped: nat, cap0: nat, after: seq<byte>)
    requires Refused(e, part, cap0 + skipped, after) && skipped + Groups(part) <= Groups(n)
    requires WellFormed(n) ==> WellFormed(part)
    ensures Refused(e, n, cap0, after)
  {
  }

  lemma RefusedSmaller(e: CompileError, a: Node, b: Node, alt: bool, right: bool, cap0: nat, after: seq<byte>)
    requires if right then Refused(e, b, cap0 + Groups(a), after) else Refused(e, a, cap0, after)
    ensures Refused(e, if alt then Alt(a, b) else Cat(a, b), cap0, after)
  {
  }

  lemma EmittedEmpty(back: bool, cap: nat, s: seq<byte>)
    requires cap <= CAPTURE_COUNT_MAX
    ensures Emitted(Empty, back, cap, s, cap, s)
  {
  }

  lemma EmittedParts(n: Node, back: bool, cap0: nat, before: seq<byte>, cap1: nat, after: seq<byte>)
    requires Emitted(n, back, cap0, before, cap1, after)
    ensures WellFormed(n) && cap1 == cap0 + Groups(n) <= CAPTURE_COUNT_MAX && Adds(before, after, Code(n, back, cap0))
    ensures |before| <= |after| && after[..|before|] == before && after[|before|..] == Assemble(Code(n, back, cap0))
  {
    hide Code;
    hide Assemble;
    hide WellFormed;
    hide Groups;
  }

  lemma EmittedIntro(n: Node, back: bool, cap0: nat, before: seq<byte>, cap1: nat, after: seq<byte>)
    requires WellFormed(n) && cap1 == cap0 + Groups(n) <= CAPTURE_COUNT_MAX
    requires after == before + Assemble(Code(n, back, cap0))
    ensures Emitted(n, back, cap0, before, cap1, after)
  {
  }

  /** A term behind the terms before it, going forward. */
  lemma EmittedCat(a: Node, b: Node, cap0: nat, cap1: nat, cap2: nat, s0: seq<byte>, s1: seq<byte>, s2: seq<byte>)
    requires Emitted(a, false, cap0, s0, cap1, s1) && Emitted(b, false, cap1, s1, cap2, s2)
    ensures Emitted(Cat(a, b), false, cap0, s0, cap2, s2)
  {
    hide *;
    EmittedParts(a, false, cap0, s0, cap1, s1);
    EmittedParts(b, false, cap1, s1, cap2, s2);
    CatIs(a, b);
    CatCode(Cat(a, b), false, cap0);
    AddsThen(s0, s1, s2, Code(a, false, cap0), Code(b, false, cap1));
    AddsOpen(s0, s2, Code(Cat(a, b), false, cap0));
    EmittedIntro(Cat(a, b), false, cap0, s0, cap2, s2);
  }

  lemma AddsOpen(a: seq<byte>, b: seq<byte>, c: seq<Instr>)
    requires Adds(a, b, c)
    ensures b == a + Assemble(c)
  {
  }

  lemma CatIs(a: Node, b: Node)
    requires WellFormed(a) && WellFormed(b)
    ensures WellFormed(Cat(a, b)) && Groups(Cat(a, b)) == Groups(a) + Groups(b)
  {
  }

  /** A term rotated in front of the terms before it, going backward. */
  lemma EmittedCatBack(a: Node, b: Node, cap0: nat, cap1: nat, cap2: nat, s0: seq<byte>, s1: seq<byte>, s2: seq<byte>)
    requires Emitted(a, true, cap0, s0, cap1, s1) && Emitted(b, true, cap1, s1, cap2, s2)
    ensures |s0| <= |s1| <= |s2|
    ensures Emitted(Cat(a, b), true, cap0, s0, cap2, s2[..|s0|] + s2[|s1|..] + s2[|s0|..|s1|])
  {
    hide *;
    EmittedParts(a, true, cap0, s0, cap1, s1);
    EmittedParts(b, true, cap1, s1, cap2, s2);
    CatIs(a, b);
    CatCode(Cat(a, b), true, cap0);
    RotatedSlices(s0, s1, s2);
    AssembleConcat(Code(b, true, cap1), Code(a, true, cap0));
    EmittedIntro(Cat(a, b), true, cap0, s0, cap2, s2[..|s0|] + s2[|s1|..] + s2[|s0|..|s1|]);
  }

  lemma RotatedSlices(s0: seq<byte>, s1: seq<byte>, s2: seq<byte>)
    requires |s0| <= |s1| <= |s2| && s1[..|s0|] == s0 && s2[..|s1|] == s1
    ensures s2[..|s0|] + s2[|s1|..] + s2[|s0|..|s1|] == s0 + (s2[|s1|..] + s1[|s0|..])
  {
    assert s2[|s0|..|s1|] == s1[|s0|..];
    assert s2[..|s0|] == s1[..|s0|];
  }

  // ----- disjunctions -----

  lemma PatchedGoto(x: seq<byte>, op: byte, len: int, tail: seq<byte>)
    ensures |x + ([op] + U32(0)) + tail| == |x| + 5 + |tail|
    ensures Over(x + ([op] + U32(0)) + tail, |x| + 1, U32(len)) == x + ([op] + U32(len)) + tail
  {
    hide U32;
    OverMiddle(x, [op] + U32(0), tail, 1, U32(len));
  }

  lemma AltBytes(ca: seq<Instr>, cb: seq<Instr>)
    ensures Assemble([SplitNextFirst(Length(ca) + 5)] + ca + [Goto(Length(cb))] + cb)
         == ([OP_SPLIT_NEXT_FIRST] + U32(Length(ca) + 5)) + Assemble(ca) + ([OP_GOTO] + U32(Length(cb))) + Assemble(cb)
  {
    hide *;
    JumpBytes(Length(ca) + 5);
    JumpBytes(Length(cb));
    FrameBytes(SplitNextFirst(Length(ca) + 5), ca, Goto(Length(cb)));
    AssembleConcat([SplitNextFirst(Length(ca) + 5)] + ca + [Goto(Length(cb))], cb);
  }

  lemma AltIs(a: Node, b: Node)
    requires WellFormed(a) && WellFormed(b)
    ensures WellFormed(Alt(a, b)) && Groups(Alt(a, b)) == Groups(a) + Groups(b)
  {
  }

  /** One more alternative: the split is in front, the jump over the new alternative is patched. */
  lemma EmittedAlt(a: Node, b: Node, back: bool, cap0: nat, cap1: nat, cap2: nat, s0: seq<byte>, s1: seq<byte>,
                   t: seq<byte>, t1: seq<byte>)
    requires Emitted(a, back, cap0, s0, cap1, s1) && Emitted(b, back, cap1, t, cap2, t1)
    requires |s0| <= |s1| && |t| <= |t1|
    requires t == s0 + ([OP_SPLIT_NEXT_FIRST] + U32(|s1| - |s0| + 5)) + s1[|s0|..] + ([OP_GOTO] + U32(0))
    ensures |t| >= 4 && Emitted(Alt(a, b), back, cap0, s0, cap2, Over(t1, |t| - 4, U32(|t1| - |t|)))
  {
    hide *;
    EmittedParts(a, back, cap0, s0, cap1, s1);
    EmittedParts(b, back, cap1, t, cap2, t1);
    AltIs(a, b);
    AltCode(Alt(a, b), back, cap0);
    var ca, cb := Code(a, back, cap0), Code(b, back, cap1);
    EitherCodeIs(ca, cb);
    AssembledLength(ca);
    AssembledLength(cb);
    var split := [OP_SPLIT_NEXT_FIRST] + U32(Length(ca) + 5);
    PatchedGoto(s0 + split + Assemble(ca), OP_GOTO, Length(cb), Assemble(cb));
    AltBytes(ca, cb);
    Assoc5(s0, split, Assemble(ca), [OP_GOTO] + U32(Length(cb)), Assemble(cb));
    JoinSlices(t, t1);
    EmittedIntro(Alt(a, b), back, cap0, s0, cap2, Over(t1, |t| - 4, U32(|t1| - |t|)));
  }

  lemma JoinSlices(t: seq<byte>, t1: seq<byte>)
    requires |t| <= |t1| && t1[..|t|] == t
    ensures t1 == t + t1[|t|..]
  {
  }

  /** An error on one part is an error on the whole. */
  lemma {:induction false} RefusedAlts(e: CompileError, ts: seq<Node>, i: nat, cap0: nat, after: seq<byte>)
    requires 0 < i <= |ts| && Refused(e, AltOf(ts[..i]), cap0, after)
    ensures Refused(e, AltOf(ts), cap0, after)
    decreases |ts| - i
  {
    if i == |ts| {
      assert ts[..i] == ts;
    } else {
      hide Refused;
      AltMore(ts, i);
      RefusedSmaller(e, AltOf(ts[..i]), ts[i], true, false, cap0, after);
      RefusedAlts(e, ts, i + 1, cap0, after);
    }
  }

  lemma {:induction false} RefusedCats(e: CompileError, ts: seq<Node>, i: nat, cap0: nat, after: seq<byte>)
    requires i <= |ts| && Refused(e, CatOf(ts[..i]), cap0, after)
    ensures Refused(e, CatOf(ts), cap0, after)
    decreases |ts| - i
  {
    if i == |ts| {
      assert ts[..i] == ts;
    } else {
      hide Refused;
      CatMore(ts, i);
      RefusedSmaller(e, CatOf(ts[..i]), ts[i], false, false, cap0, after);
      RefusedCats(e, ts, i + 1, cap0, after);
    }
  }

  lemma RefusedAlt(e: CompileError, n: Node, i: nat, cap0: nat, cap1: nat, after: seq<byte>)
    requires i < |Alternatives(n)| && Refused(e, Alternatives(n)[i], cap1, after)
    requires cap1 == if i == 0 then cap0 else cap0 + Groups(AltOf(Alternatives(n)[..i]))
    ensures Refused(e, n, cap0, after)
  {
    hide *;
    var ts := Alternatives(n);
    AltOfAlternatives(n);
    AltFirst(ts);
    if i > 0 {
      AltMore(ts, i);
      RefusedSmaller(e, AltOf(ts[..i]), ts[i], true, true, cap0, after);
    }
    RefusedAlts(e, ts, i + 1, cap0, after);
  }

  lemma AltFirst(ts: seq<Node>)
    requires ts != []
    ensures AltOf(ts[..1]) == ts[0]
  {
  }

  lemma TermRank(n: Node, t: Node)
    ensures t == n && !n.Cat? && !n.Empty? && !n.Alt? ==> !IsGroup(t)
    ensures t == n && n.Alt? ==> IsGroup(t)
  {
  }

  lemma CatFirst(ts: seq<Node>)
    ensures CatOf(ts[..0]) == Empty
  {
  }

  lemma RefusedTerm(e: CompileError, n: Node, i: nat, cap0: nat, cap1: nat, after: seq<byte>)
    requires Parsed(n) && i < |Terms(n)| && Refused(e, Terms(n)[i], cap1, after)
    requires cap1 == cap0 + Groups(CatOf(Terms(n)[..i]))
    ensures Refused(e, n, cap0, after)
  {
    hide *;
    var ts := Terms(n);
    CatOfTerms(n);
    CatMore(ts, i);
    RefusedSmaller(e, CatOf(ts[..i]), ts[i], false, true, cap0, after);
    RefusedCats(e, ts, i + 1, cap0, after);
    RefusedSame(e, CatOf(ts), n, cap0, after);
  }

  lemma RefusedSame(e: CompileError, a: Node, b: Node, cap0: nat, after: seq<byte>)
    requires Refused(e, a, cap0, after) && Groups(a) == Groups(b) && (WellFormed(a) <==> WellFormed(b))
    ensures Refused(e, b, cap0, after)
  {
  }

  lemma EmittedTerms(n: Node, back: bool, cap0: nat, s0: seq<byte>, cap1: nat, s1: seq<byte>)
    requires Parsed(n) && Emitted(CatOf(Terms(n)), back, cap0, s0, cap1, s1)
    ensures Emitted(n, back, cap0, s0, cap1, s1)
  {
    hide *;
    CatOfTerms(n);
    EmittedParts(CatOf(Terms(n)), back, cap0, s0, cap1, s1);
    CatOfTermsCode(n, back, cap0);
    AddsOpen(s0, s1, Code(n, back, cap0));
    EmittedIntro(n, back, cap0, s0, cap1, s1);
  }

  // ----- single instructions and brackets -----

  lemma EmittedOne(n: Node, back: bool, cap: nat, before: seq<byte>, after: seq<byte>, i: Instr)
    requires WellFormed(n) && Groups(n) == 0 && cap <= CAPTURE_COUNT_MAX && Code(n, back, cap) == [i]
    requires after == before + Encode(i)
    ensures Emitted(n, back, cap, before, cap, after)
  {
    hide *;
    AssembleOne(i);
    EmittedIntro(n, back, cap, before, cap, after);
  }

  lemma EmittedDirected(n: Node, back: bool, cap: nat, before: seq<byte>, after: seq<byte>, i: Instr)
    requires WellFormed(n) && IsOneChar(n) && cap <= CAPTURE_COUNT_MAX && Code(n, back, cap) == Directed(back, i)
    requires after == if back then before + [OP_PREV] + Encode(i) + [OP_PREV] else before + Encode(i)
    ensures Emitted(n, back, cap, before, cap, after)
  {
    assert Groups(n) == 0;
    DirectedParts(i);
    hide *;
    AssembleOne(i);
    PlainBytes();
    FrameBytes(Prev, [i], Prev);
    EmittedIntro(n, back, cap, before, cap, after);
  }

  lemma DirectedParts(i: Instr)
    ensures Directed(true, i) == [Prev] + [i] + [Prev] && Directed(false, i) == [i]
  {
  }

  lemma OneCharCodes(n: Node, back: bool, cap: nat)
    requires WellFormed(n) && IsOneChar(n)
    ensures n.Char? ==> Code(n, back, cap) == Directed(back, CharInstr(n.c))
    ensures n.AnyChar? ==> Code(n, back, cap) == Directed(back, if n.lineTerminators then Any else Dot)
    ensures n.Class? ==> Code(n, back, cap) == Directed(back, ClassInstr(n.points))
  {
    hide Directed;
    hide CharInstr;
    hide ClassInstr;
  }

  lemma SingleCodes(n: Node, back: bool, cap: nat)
    requires Parsed(n)
    ensures n.LineStart? || n.LineEnd? || n.WordBoundary? || n.BackRef? ==> WellFormed(n) && Groups(n) == 0
    ensures n.LineStart? ==> Code(n, back, cap) == [Instr.LineStart]
    ensures n.LineEnd? ==> Code(n, back, cap) == [Instr.LineEnd]
    ensures n.WordBoundary? ==> Code(n, back, cap) == [if n.negated then NotWordBoundary else Instr.WordBoundary]
    ensures n.BackRef?
            ==> Code(n, back, cap) == [if back then BackwardBackReference(n.group) else BackReference(n.group)]
  {
  }

  /** Two save instructions around a group. */
  lemma EmittedCapture(a: Node, back: bool, cap0: nat, cap1: nat, s0: seq<byte>, s1: seq<byte>, s2: seq<byte>,
                       s3: seq<byte>)
    requires s1 == s0 + ([if back then OP_SAVE_END else OP_SAVE_START] + [cap0 % 256])
    requires Emitted(a, back, cap0 + 1, s1, cap1, s2)
    requires s3 == s2 + ([if back then OP_SAVE_START else OP_SAVE_END] + [cap0 % 256])
    ensures Emitted(Capture(a), back, cap0, s0, cap1, s3)
  {
    hide *;
    EmittedParts(a, back, cap0 + 1, s1, cap1, s2);
    CaptureIs(a);
    CaptureCode(Capture(a), back, cap0);
    SaveBytes(cap0);
    FrameBytes(if back then SaveEnd(cap0) else SaveStart(cap0), Code(a, back, cap0 + 1),
               if back then SaveStart(cap0) else SaveEnd(cap0));
    AddsOpen(s1, s2, Code(a, back, cap0 + 1));
    EmittedIntro(Capture(a), back, cap0, s0, cap1, s3);
  }

  lemma CaptureIs(a: Node)
    ensures WellFormed(Capture(a)) == WellFormed(a) && Groups(Capture(a)) == 1 + Groups(a)
  {
  }

  lemma RefusedCapture(a: Node, cap0: nat, after: seq<byte>)
    requires cap0 >= CAPTURE_COUNT_MAX
    ensures Refused(TooManyCaptures, Capture(a), cap0, after)
  {
  }

  lemma LookIs(negated: bool, behind: bool, a: Node)
    ensures WellFormed(Look(negated, behind, a)) == WellFormed(a) && Groups(Look(negated, behind, a)) == Groups(a)
  {
  }

  /** A lookaround whose offset is patched once its end is known. */
  lemma EmittedLook(negated: bool, behind: bool, a: Node, back: bool, cap0: nat, cap1: nat, s0: seq<byte>,
                    s1: seq<byte>, s2: seq<byte>)
    requires s1 == s0 + ([LookOp(negated)] + U32(0)) && Emitted(a, behind, cap0, s1, cap1, s2) && |s1| <= |s2|
    ensures Emitted(Look(negated, behind, a), back, cap0, s0, cap1,
                    Over(s2 + [OP_MATCH], |s0| + 1, U32(|s2| + 1 - |s1|)))
  {
    LookOpIs(negated, |s2| + 1 - |s1|);
    hide *;
    EmittedParts(a, behind, cap0, s1, cap1, s2);
    LookIs(negated, behind, a);
    LookCode(Look(negated, behind, a), back, cap0);
    var c := Code(a, behind, cap0);
    AroundCodeIs(negated, c);
    AssembledLength(c);
    AddsOpen(s1, s2, c);
    PatchedGoto(s0, LookOp(negated), Length(c) + 1, Assemble(c) + [OP_MATCH]);
    PlainBytes();
    FrameBytes(if negated then NegativeLookahead(Length(c) + 1) else Lookahead(Length(c) + 1), c, Match);
    Assoc3(s1, Assemble(c), [OP_MATCH]);
    Assoc3([LookOp(negated)] + U32(Length(c) + 1), Assemble(c), [OP_MATCH]);
    Assoc3(s0, [LookOp(negated)] + U32(Length(c) + 1), Assemble(c) + [OP_MATCH]);
    EmittedIntro(Look(negated, behind, a), back, cap0, s0, cap1, Over(s2 + [OP_MATCH], |s0| + 1, U32(Length(c) + 1)));
  }

  /** `REOP_lookahead + is_neg`. */
  function LookOp(negated: bool): byte {
    if negated then OP_NEGATIVE_LOOKAHEAD else OP_LOOKAHEAD
  }

  lemma LookOpIs(negated: bool, d: int)
    ensures Encode(if negated then NegativeLookahead(d) else Lookahead(d)) == [LookOp(negated)] + U32(d)
  {
    JumpBytes(d);
  }

  /** The code a quantifier leaves is the code of the repeat. */
  lemma EmittedRepeat(n: Node, back: bool, cap0: nat, s0: seq<byte>, cap1: nat, s1: seq<byte>, s2: seq<byte>)
    requires Parsed(n) && n.Repeat? && Emitted(n.body, back, cap0, s0, cap1, s1)
    requires s2 == s0 + Assemble(RepeatCode(Code(n.body, back, cap0), cap1 - cap0, cap0, n.min, n.max, n.greedy))
    ensures Emitted(n, back, cap0, s0, cap1, s2)
  {
    hide Code;
    hide RepeatCode;
    hide Assemble;
    RepeatIsParsed(n);
    RepeatCodeIs(n, back, cap0);
    EmittedParts(n.body, back, cap0, s0, cap1, s1);
    EmittedIntro(n, back, cap0, s0, cap1, s2);
  }

  lemma EmittedFit(n: Node, back: bool, cap0: nat, cap1: nat)
    requires WellFormed(n) && cap1 == cap0 + Groups(n) <= CAPTURE_COUNT_MAX
    ensures AllFit(Code(n, back, cap0))
  {
    CodeFit(n, back, cap0);
  }

  lemma RepeatIsParsed(n: Node)
    requires Parsed(n) && n.Repeat?
    ensures Parsed(n.body) && 0 <= n.min <= n.max <= INFINITE && Groups(n) == Groups(n.body)
    ensures WellFormed(n) <==> WellFormed(n.body)
  {
  }

  lemma BodyParsed(n: Node)
    requires Parsed(n)
    ensures n.Capture? ==> Parsed(n.body)
    ensures n.Look? ==> Parsed(n.body)
  {
  }

  // ----- running out of memory -----

  /** Success and OutOfMemory say on which side of the limit the largest checked size lies. */
  ghost predicate Sized(level: Level, r: Status, n: Node, back: bool, cap: nat, start: nat) {
    && (r.Ok? ==> WellFormed(n) && Checks(level, n, back, cap, start) < SIZE_MAX)
    && (r == Err(OutOfMemory) && WellFormed(n) ==> Checks(level, n, back, cap, start) >= SIZE_MAX)
  }

  lemma SizedAtOnce(level: Level, n: Node, back: bool, cap: nat, start: nat)
    requires start >= SIZE_MAX
    ensures Sized(level, Err(OutOfMemory), n, back, cap, start)
  {
    hide Checks;
  }

  lemma SizedOther(level: Level, e: CompileError, n: Node, back: bool, cap: nat, start: nat)
    requires e != OutOfMemory
    ensures Sized(level, Err(e), n, back, cap, start)
  {
  }

  /** A part one level down that is checked from the same or a later size. */
  ghost predicate Checked(level: Level, n: Node, back: bool, cap: nat, start: nat) {
    WellFormed(n) && Checks(level, n, back, cap, start) < SIZE_MAX
  }

  lemma SizedOk(level: Level, n: Node, back: bool, cap: nat, start: nat)
    requires Checked(level, n, back, cap, start)
    ensures Sized(level, Ok, n, back, cap, start)
  {
  }

  lemma SizedParts(level: Level, r: Status, n: Node, back: bool, cap: nat, start: nat)
    requires Sized(level, r, n, back, cap, start)
    ensures r.Ok? ==> Checked(level, n, back, cap, start)
  {
  }

  lemma CheckedCat(a: Node, b: Node, back: bool, cap0: nat, cap1: nat, start: nat, mid: nat)
    requires Checked(Alternative, a, back, cap0, start) && Checked(Term, b, back, cap1, mid)
    requires cap1 == cap0 + Groups(a) && mid == start + Length(Code(a, back, cap0))
    ensures Checked(Alternative, Cat(a, b), back, cap0, start)
  {
    hide *;
    CheckedIs(Alternative, a, back, cap0, start);
    CheckedIs(Term, b, back, cap1, mid);
    CatChecks(a, b, back, cap0, start);
    MaxIs(Checks(Alternative, a, back, cap0, start), Checks(Term, b, back, cap1, mid));
    CheckedIs(Alternative, Cat(a, b), back, cap0, start);
  }

  lemma CheckedAlt(a: Node, b: Node, back: bool, cap0: nat, cap1: nat, start: nat, mid: nat)
    requires Checked(Disjunction, a, back, cap0, start) && Checked(Alternative, b, back, cap1, mid)
    requires cap1 == cap0 + Groups(a) && mid == start + Length(Code(a, back, cap0)) + 10
    ensures Checked(Disjunction, Alt(a, b), back, cap0, start)
  {
    hide *;
    CheckedIs(Disjunction, a, back, cap0, start);
    CheckedIs(Alternative, b, back, cap1, mid);
    AltChecks(a, b, back, cap0, start);
    MaxIs(Checks(Disjunction, a, back, cap0, start), Checks(Alternative, b, back, cap1, mid));
    CheckedIs(Disjunction, Alt(a, b), back, cap0, start);
  }

  lemma CheckedIs(level: Level, n: Node, back: bool, cap: nat, start: nat)
    ensures Checked(level, n, back, cap, start) <==> WellFormed(n) && Checks(level, n, back, cap, start) < SIZE_MAX
  {
  }

  lemma SizedErrIs(level: Level, r: Status, n: Node, back: bool, cap: nat, start: nat)
    requires r.Err?
    ensures Sized(level, r, n, back, cap, start)
            <==> (r == Err(OutOfMemory) && WellFormed(n) ==> Checks(level, n, back, cap, start) >= SIZE_MAX)
  {
  }

  lemma CheckedEmpty(back: bool, cap: nat, start: nat)
    requires start < SIZE_MAX
    ensures Checked(Alternative, Empty, back, cap, start)
  {
  }

  /** A term too large makes the terms up to it, and then all of them, too large. */
  lemma {:induction false} CatsTooLarge(ts: seq<Node>, i: nat, back: bool, cap: nat, start: nat)
    requires i <= |ts| && WellFormed(CatOf(ts))
    ensures WellFormed(CatOf(ts[..i]))
    ensures Checks(Alternative, CatOf(ts[..i]), back, cap, start) <= Checks(Alternative, CatOf(ts), back, cap, start)
    decreases |ts| - i
  {
    if i == |ts| {
      assert ts[..i] == ts;
    } else {
      CatsTooLarge(ts, i + 1, back, cap, start);
      CatMore(ts, i);
      CatFacts(CatOf(ts[..i]), ts[i]);
      CatChecks(CatOf(ts[..i]), ts[i], back, cap, start);
      hide Checks;
      hide CatOf;
    }
  }

  lemma CatChecks(a: Node, b: Node, back: bool, cap: nat, start: nat)
    requires WellFormed(a) && WellFormed(b)
    ensures WellFormed(Cat(a, b))
    ensures Checks(Alternative, Cat(a, b), back, cap, start)
         == MaxOf(Checks(Alternative, a, back, cap, start),
                  Checks(Term, b, back, cap + Groups(a), start + Length(Code(a, back, cap))))
  {
    hide *;
    CatFacts(a, b);
    CatChecksOf(Cat(a, b), back, cap, start);
  }

  lemma AltChecks(a: Node, b: Node, back: bool, cap: nat, start: nat)
    requires WellFormed(a) && WellFormed(b)
    ensures WellFormed(Alt(a, b))
    ensures Checks(Disjunction, Alt(a, b), back, cap, start)
         == MaxOf(Checks(Disjunction, a, back, cap, start),
                  Checks(Alternative, b, back, cap + Groups(a), start + Length(Code(a, back, cap)) + 10))
  {
    hide *;
    AltFacts(a, b);
    AltChecksOf(Alt(a, b), back, cap, start);
  }

  lemma {:induction false} AltsTooLarge(ts: seq<Node>, i: nat, back: bool, cap: nat, start: nat)
    requires 0 < i <= |ts| && WellFormed(AltOf(ts))
    ensures WellFormed(AltOf(ts[..i]))
    ensures Checks(Disjunction, AltOf(ts[..i]), back, cap, start) <= Checks(Disjunction, AltOf(ts), back, cap, start)
    decreases |ts| - i
  {
    if i == |ts| {
      assert ts[..i] == ts;
    } else {
      AltsTooLarge(ts, i + 1, back, cap, start);
      AltMore(ts, i);
      AltFacts(AltOf(ts[..i]), ts[i]);
      AltChecks(AltOf(ts[..i]), ts[i], back, cap, start);
      hide Checks;
      hide AltOf;
    }
  }

  lemma AltFacts(a: Node, b: Node)
    ensures WellFormed(Alt(a, b)) <==> WellFormed(a) && WellFormed(b)
    ensures Groups(Alt(a, b)) == Groups(a) + Groups(b)
  {
  }

  /** The spine of terms is checked like the concatenation it came from. */
  lemma {:induction false} TermsChecks(n: Node, back: bool, cap: nat, start: nat)
    requires Parsed(n) && WellFormed(n)
    ensures WellFormed(CatOf(Terms(n)))
    ensures Checks(Alternative, CatOf(Terms(n)), back, cap, start) == Checks(Alternative, n, back, cap, start)
    decreases n
  {
    hide *;
    CatOfTerms(n);
    TermsShape(n);
    if n.Cat? {
      CatFacts(n.left, n.right);
      CatOfCat(n.left, n.right);
      CatOfTerms(n.left);
      CatOfTermsCode(n.left, back, cap);
      TermsChecks(n.left, back, cap, start);
      CatChecks(n.left, n.right, back, cap, start);
      CatChecks(CatOf(Terms(n.left)), n.right, back, cap, start);
    } else if !n.Empty? {
      CatOfSingle(n);
      EmptyFacts();
      EmptyCode(back, cap);
      EmptyChecks(back, cap, start);
      CatChecks(Empty, n, back, cap, start);
      SingleChecks(n, back, cap, start);
    }
  }

  lemma EmptyChecks(back: bool, cap: nat, start: nat)
    ensures Checks(Alternative, Empty, back, cap, start) == start && Length([]) == 0
  {
  }

  lemma SingleChecks(n: Node, back: bool, cap: nat, start: nat)
    requires WellFormed(n) && !n.Cat? && !n.Empty?
    ensures Checks(Alternative, n, back, cap, start) == Checks(Term, n, back, cap, start)
    ensures Checks(Term, n, back, cap, start) == MaxOf(start, Checks(Term, n, back, cap, start))
  {
    hide Checks;
    SingleStep(n, back, cap, start);
  }

  lemma SingleStep(n: Node, back: bool, cap: nat, start: nat)
    requires WellFormed(n) && !n.Cat? && !n.Empty?
    ensures Checks(Alternative, n, back, cap, start) == Checks(Term, n, back, cap, start)
  {
  }

  /** How the loop over the terms ends. */
  lemma SizedTerms(n: Node, back: bool, cap: nat, start: nat)
    requires Parsed(n) && WellFormed(n) && Checked(Alternative, CatOf(Terms(n)), back, cap, start)
    ensures Checked(Alternative, n, back, cap, start)
  {
    TermsChecks(n, back, cap, start);
    hide Checks;
    hide CatOf;
  }

  lemma SizedTermErr(r: Status, n: Node, i: nat, back: bool, cap0: nat, cap1: nat, start: nat, mid: nat)
    requires Parsed(n) && i < |Terms(n)| && r.Err? && Sized(Term, r, Terms(n)[i], back, cap1, mid)
    requires WellFormed(CatOf(Terms(n)[..i])) && cap1 == cap0 + Groups(CatOf(Terms(n)[..i]))
    requires mid == start + Length(Code(CatOf(Terms(n)[..i]), back, cap0))
    ensures Sized(Alternative, r, n, back, cap0, start)
  {
    hide *;
    SizedErrIs(Alternative, r, n, back, cap0, start);
    if r == Err(OutOfMemory) && WellFormed(n) {
      var ts := Terms(n);
      TermsChecks(n, back, cap0, start);
      CatsTooLarge(ts, i + 1, back, cap0, start);
      CatMore(ts, i);
      CatFacts(CatOf(ts[..i]), ts[i]);
      CatChecks(CatOf(ts[..i]), ts[i], back, cap0, start);
      SizedErrIs(Term, r, ts[i], back, cap1, mid);
      MaxIs(Checks(Alternative, CatOf(ts[..i]), back, cap0, start), Checks(Term, ts[i], back, cap1, mid));
    }
  }

  lemma SizedAltErr(r: Status, n: Node, i: nat, back: bool, cap0: nat, cap1: nat, start: nat, mid: nat)
    requires 0 < i < |Alternatives(n)| && r.Err? && Sized(Alternative, r, Alternatives(n)[i], back, cap1, mid)
    requires WellFormed(AltOf(Alternatives(n)[..i])) && cap1 == cap0 + Groups(AltOf(Alternatives(n)[..i]))
    requires mid == start + Length(Code(AltOf(Alternatives(n)[..i]), back, cap0)) + 10
    ensures Sized(Disjunction, r, n, back, cap0, start)
  {
    hide *;
    SizedErrIs(Disjunction, r, n, back, cap0, start);
    if r == Err(OutOfMemory) && WellFormed(n) {
      var ts := Alternatives(n);
      AltOfAlternatives(n);
      AltsTooLarge(ts, i + 1, back, cap0, start);
      AltMore(ts, i);
      AltFacts(AltOf(ts[..i]), ts[i]);
      AltChecks(AltOf(ts[..i]), ts[i], back, cap0, start);
      SizedErrIs(Alternative, r, ts[i], back, cap1, mid);
      MaxIs(Checks(Disjunction, AltOf(ts[..i]), back, cap0, start), Checks(Alternative, ts[i], back, cap1, mid));
    }
  }

  /** The first alternative is checked like a disjunction of its own. */
  lemma FirstChecks(n: Node, back: bool, cap: nat, start: nat)
    requires WellFormed(Alternatives(n)[0])
    ensures Checks(Disjunction, Alternatives(n)[0], back, cap, start)
         == Checks(Alternative, Alternatives(n)[0], back, cap, start)
    decreases n
  {
    FirstPlain(n);
  }

  lemma {:induction false} FirstPlain(n: Node)
    ensures !Alternatives(n)[0].Alt?
    decreases n
  {
    if n.Alt? {
      FirstPlain(n.left);
    }
  }

  lemma SizedFirst(r: Status, n: Node, back: bool, cap: nat, start: nat)
    requires Sized(Alternative, r, Alternatives(n)[0], back, cap, start)
    ensures r.Ok? ==> Checked(Disjunction, Alternatives(n)[0], back, cap, start)
    ensures r.Err? ==> Sized(Disjunction, r, n, back, cap, start)
  {
    var ts := Alternatives(n);
    AltFirst(ts);
    AltOfAlternatives(n);
    if WellFormed(ts[0]) {
      FirstChecks(n, back, cap, start);
    }
    if WellFormed(n) {
      AltsTooLarge(ts, 1, back, cap, start);
    }
    hide Checks;
    hide Alternatives;
    hide AltOf;
  }

  lemma SizedRepeat(r: Status, n: Node, back: bool, cap: nat, start: nat)
    requires n.Repeat? && (WellFormed(n) <==> WellFormed(n.body)) && Sized(Atom, r, n.body, back, cap, start)
    ensures Sized(Term, r, n, back, cap, start)
  {
  }

  lemma SizedAtomTerm(r: Status, n: Node, back: bool, cap: nat, start: nat)
    requires !n.Repeat? && Sized(Atom, r, n, back, cap, start)
    ensures Sized(Term, r, n, back, cap, start)
  {
  }

  lemma SizedCapture(r: Status, a: Node, back: bool, cap: nat, start: nat)
    requires Sized(Disjunction, r, a, back, cap + 1, start + 2)
    ensures Sized(Atom, r, Capture(a), back, cap, start)
  {
    CaptureIs(a);
  }

  lemma SizedLook(r: Status, negated: bool, behind: bool, a: Node, back: bool, cap: nat, start: nat)
    requires Sized(Disjunction, r, a, behind, cap, start + 5)
    ensures Sized(Atom, r, Look(negated, behind, a), back, cap, start)
  {
    LookIs(negated, behind, a);
  }

  lemma SizedGroup(r: Status, n: Node, back: bool, cap: nat, start: nat)
    requires (IsGroup(n) || n.Repeat?) && Sized(Disjunction, r, n, back, cap, start)
    ensures Sized(Atom, r, n, back, cap, start)
  {
  }

  lemma SizedLeaf(n: Node, back: bool, cap: nat, start: nat)
    requires WellFormed(n) && !IsGroup(n) && !n.Capture? && !n.Look? && !n.Repeat? && start < SIZE_MAX
    ensures Sized(Atom, Ok, n, back, cap, start)
  {
  }

  lemma SizedLeafOutcome(r: Status, n: Node, back: bool, cap0: nat, before: seq<byte>, cap1: nat, after: seq<byte>)
    requires Outcome(r, n, back, cap0, before, cap1, after) && (r == Ok || r == Err(TooManyRanges))
    requires !IsGroup(n) && !n.Capture? && !n.Look? && !n.Repeat? && |before| < SIZE_MAX
    ensures Sized(Atom, r, n, back, cap0, |before|)
  {
    if r == Ok {
      EmittedParts(n, back, cap0, before, cap1, after);
      SizedLeaf(n, back, cap0, |before|);
    }
  }

  lemma WordSize(v: int)
    ensures |U32(v)| == 4
  {
  }

  // ----- the recursive descent -----

  class Compiler {
    const code: Buffer
    var captureCount: nat

    constructor ()
      ensures fresh(code) && code.bytes == [] && captureCount == 1
    {
      code := new Buffer();
      captureCount := 1;
    }

    /** `re_parse_disjunction`. */
    method ParseDisjunction(n: Node, back: bool) returns (r: Status)
      requires Parsed(n) && captureCount <= CAPTURE_COUNT_MAX
      modifies this`captureCount, code
      ensures Outcome(r, n, back, old(captureCount), old(code.bytes), captureCount, code.bytes)
      ensures Sized(Disjunction, r, n, back, old(captureCount), |old(code.bytes)|)
      decreases n, 3
    {
      hide *;
      var alts := Alternatives(n);
      PartsOk(n);
      AltFirst(alts);
      ghost var s0, cap0 := code.bytes, captureCount;
      if |code.bytes| >= SIZE_MAX {
        RefusedMemory(n, cap0, s0);
        OutcomeErr(OutOfMemory, n, back, cap0, s0, captureCount, s0);
        SizedAtOnce(Disjunction, n, back, cap0, |s0|);
        return Err(OutOfMemory);
      }
      var start := |code.bytes|;
      r := ParseAlternative(alts[0], back);
      OutcomeParts(r, alts[0], back, cap0, s0, captureCount, code.bytes);
      SizedFirst(r, n, back, cap0, |s0|);
      if r.Err? {
        RefusedAlt(r.error, n, 0, cap0, cap0, code.bytes);
        OutcomeErr(r.error, n, back, cap0, s0, captureCount, code.bytes);
        return;
      }
      ghost var before := alts[0];
      var i: nat := 1;
      while i < |alts|
        invariant 1 <= i <= |alts| && before == AltOf(alts[..i])
        invariant Emitted(before, back, cap0, s0, captureCount, code.bytes)
        invariant Checked(Disjunction, before, back, cap0, |s0|)
      {
        ghost var s1, cap1 := code.bytes, captureCount;
        EmittedParts(before, back, cap0, s0, cap1, s1);
        AssembledLength(Code(before, back, cap0));
        r := ParseNext(start, alts[i], back, before, cap0, s0);
        SizedParts(Alternative, r, alts[i], back, cap1, |s1| + 10);
        if r.Err? {
          RefusedAlt(r.error, n, i, cap0, cap1, code.bytes);
          OutcomeErr(r.error, n, back, cap0, s0, captureCount, code.bytes);
          SizedAltErr(r, n, i, back, cap0, cap1, |s0|, |s1| + 10);
          return;
        }
        CheckedAlt(before, alts[i], back, cap0, cap1, |s0|, |s1| + 10);
        AltMore(alts, i);
        before := Alt(before, alts[i]);
        i := i + 1;
      }
      AltOfAlternatives(n);
      assert alts[..i] == alts;
      OutcomeOk(n, back, cap0, s0, captureCount, code.bytes);
      SizedOk(Disjunction, n, back, cap0, |s0|);
      return Ok;
    }

    /** Behind `|`: a split goes in front of the alternatives so far, `before`, and a jump behind them. */
    method ParseNext(start: nat, next: Node, back: bool, ghost before: Node, ghost cap0: nat, ghost s0: seq<byte>)
      returns (r: Status)
      requires Parsed(next) && captureCount <= CAPTURE_COUNT_MAX && start == |s0|
      requires Emitted(before, back, cap0, s0, captureCount, code.bytes)
      modifies this`captureCount, code
      ensures match r
        case Ok => Emitted(Alt(before, next), back, cap0, s0, captureCount, code.bytes)
        case Err(e) => Refused(e, next, old(captureCount), code.bytes)
      ensures Sized(Alternative, r, next, back, old(captureCount), |old(code.bytes)| + 10)
      decreases next, 7
    {
      hide *;
      ghost var s1, cap1 := code.bytes, captureCount;
      EmittedParts(before, back, cap0, s0, cap1, s1);
      JoinSlices(s0, s1);
      var len := |code.bytes| - start;
      InsertJump(code, start, OP_SPLIT_NEXT_FIRST, len + 5, s0, s1[|s0|..]);
      var pos := code.EmitOpU32(OP_GOTO, 0);
      ghost var t := code.bytes;
      WordSize(len + 5);
      WordSize(0);
      r := ParseAlternative(next, back);
      OutcomeParts(r, next, back, cap1, t, captureCount, code.bytes);
      if r.Err? {
        return;
      }
      EmittedParts(next, back, cap1, t, captureCount, code.bytes);
      EmittedAlt(before, next, back, cap0, cap1, captureCount, s0, s1, t, code.bytes);
      len := |code.bytes| - (pos + 4);
      code.Store(pos, U32(len));
    }

    /** `re_parse_alternative`: backwards, each term is moved in front of the terms before it. */
    method ParseAlternative(n: Node, back: bool) returns (r: Status)
      requires Parsed(n) && captureCount <= CAPTURE_COUNT_MAX
      modifies this`captureCount, code
      ensures Outcome(r, n, back, old(captureCount), old(code.bytes), captureCount, code.bytes)
      ensures Sized(Alternative, r, n, back, old(captureCount), |old(code.bytes)|)
      decreases n, if n.Alt? then 6 else 2
    {
      hide *;
      var terms := Terms(n);
      PartsOk(n);
      ghost var s0, cap0 := code.bytes, captureCount;
      if |code.bytes| >= SIZE_MAX {
        RefusedMemory(n, cap0, s0);
        OutcomeErr(OutOfMemory, n, back, cap0, s0, captureCount, s0);
        SizedAtOnce(Alternative, n, back, cap0, |s0|);
        return Err(OutOfMemory);
      }
      var start := |code.bytes|;
      EmittedEmpty(back, cap0, s0);
      CheckedEmpty(back, cap0, |s0|);
      CatFirst(terms);
      ghost var before := Empty;
      var i: nat := 0;
      while i < |terms|
        invariant i <= |terms| && before == CatOf(terms[..i])
        invariant Emitted(before, back, cap0, s0, captureCount, code.bytes)
        invariant Checked(Alternative, before, back, cap0, |s0|)
      {
        ghost var s1, cap1 := code.bytes, captureCount;
        EmittedParts(before, back, cap0, s0, cap1, s1);
        AssembledLength(Code(before, back, cap0));
        var termStart := |code.bytes|;
        TermRank(n, terms[i]);
        r := ParseTerm(terms[i], back);
        OutcomeParts(r, terms[i], back, cap1, s1, captureCount, code.bytes);
        SizedParts(Term, r, terms[i], back, cap1, |s1|);
        if r.Err? {
          RefusedTerm(r.error, n, i, cap0, cap1, code.bytes);
          OutcomeErr(r.error, n, back, cap0, s0, captureCount, code.bytes);
          SizedTermErr(r, n, i, back, cap0, cap1, |s0|, |s1|);
          return;
        }
        CheckedCat(before, terms[i], back, cap0, cap1, |s0|, |s1|);
        CatMore(terms, i);
        if back {
          EmittedCatBack(before, terms[i], cap0, cap1, captureCount, s0, s1, code.bytes);
          code.Rotate(start, termStart);
        } else {
          EmittedCat(before, terms[i], cap0, cap1, captureCount, s0, s1, code.bytes);
        }
        before := Cat(before, terms[i]);
        i := i + 1;
      }
      assert terms[..i] == terms;
      EmittedTerms(n, back, cap0, s0, captureCount, code.bytes);
      OutcomeOk(n, back, cap0, s0, captureCount, code.bytes);
      EmittedParts(n, back, cap0, s0, captureCount, code.bytes);
      SizedTerms(n, back, cap0, |s0|);
      SizedOk(Alternative, n, back, cap0, |s0|);
      return Ok;
    }

    /** `re_parse_term`: an atom and the quantifier behind it, if any. */
    method ParseTerm(n: Node, back: bool) returns (r: Status)
      requires Parsed(n) && captureCount <= CAPTURE_COUNT_MAX
      modifies this`captureCount, code
      ensures Outcome(r, n, back, old(captureCount), old(code.bytes), captureCount, code.bytes)
      ensures Sized(Term, r, n, back, old(captureCount), |old(code.bytes)|)
      decreases n, if IsGroup(n) then 5 else 1
    {
      hide Emitted;
      hide Refused;
      hide Parsed;
      hide Sized;
      if |code.bytes| >= SIZE_MAX {
        RefusedMemory(n, captureCount, code.bytes);
        SizedAtOnce(Term, n, back, captureCount, |code.bytes|);
        return Err(OutOfMemory);
      }
      ghost var cap0, start := captureCount, |code.bytes|;
      if n.Repeat? {
        r := ParseRepeat(n.body, n.min, n.max, n.greedy, back, n);
      } else {
        r := ParseAtom(n, back);
        SizedAtomTerm(r, n, back, cap0, start);
      }
    }

    method ParseRepeat(a: Node, min: int, max: int, greedy: bool, back: bool, ghost n: Node) returns (r: Status)
      requires Parsed(n) && n == Repeat(a, min, max, greedy) && captureCount <= CAPTURE_COUNT_MAX
      requires |code.bytes| < SIZE_MAX
      modifies this`captureCount, code
      ensures Outcome(r, n, back, old(captureCount), old(code.bytes), captureCount, code.bytes)
      ensures Sized(Term, r, n, back, old(captureCount), |old(code.bytes)|)
      decreases a, 7
    {
      hide *;
      RepeatIsParsed(n);
      ghost var s0 := code.bytes;
      var lastAtomStart, lastCaptureCount := |code.bytes|, captureCount;
      r := ParseAtom(a, back);
      OutcomeParts(r, a, back, lastCaptureCount, s0, captureCount, code.bytes);
      SizedRepeat(r, n, back, lastCaptureCount, |s0|);
      if r.Err? {
        RefusedSame(r.error, a, n, lastCaptureCount, code.bytes);
        OutcomeErr(r.error, n, back, lastCaptureCount, s0, captureCount, code.bytes);
        return;
      }
      ghost var s1 := code.bytes;
      EmittedParts(a, back, lastCaptureCount, s0, captureCount, s1);
      ghost var c := Code(a, back, lastCaptureCount);
      EmittedFit(a, back, lastCaptureCount, captureCount);
      AddsOpen(s0, s1, c);
      Quantify(code, lastAtomStart, lastCaptureCount, captureCount, min, max, greedy, s0, c);
      EmittedRepeat(n, back, lastCaptureCount, s0, captureCount, s1, code.bytes);
      OutcomeOk(n, back, lastCaptureCount, s0, captureCount, code.bytes);
    }

    /** The atoms. */
    method ParseAtom(n: Node, back: bool) returns (r: Status)
      requires Parsed(n) && captureCount <= CAPTURE_COUNT_MAX && |code.bytes| < SIZE_MAX
      modifies this`captureCount, code
      ensures Outcome(r, n, back, old(captureCount), old(code.bytes), captureCount, code.bytes)
      ensures Sized(Atom, r, n, back, old(captureCount), |old(code.bytes)|)
      decreases n, if IsGroup(n) || n.Repeat? then 4 else 0
    {
      hide Emitted;
      hide Refused;
      hide Parsed;
      hide Sized;
      hide WellFormed;
      ghost var s0, cap0 := code.bytes, captureCount;
      if n.Capture? {
        r := ParseCapture(n.body, back, n);
      } else if n.Look? {
        r := ParseLook(n.negated, n.behind, n.body, back, n);
      } else if IsOneChar(n) {
        r := EmitChar(n, back);
        SizedLeafOutcome(r, n, back, cap0, s0, captureCount, code.bytes);
      } else if IsGroup(n) || n.Repeat? {
        r := ParseDisjunction(n, back);
        SizedGroup(r, n, back, cap0, |s0|);
      } else {
        EmitSingle(n, back);
        r := Ok;
        SizedLeafOutcome(r, n, back, cap0, s0, captureCount, code.bytes);
      }
    }

    /** A capturing group; going backward its end is saved first. */
    method ParseCapture(body: Node, back: bool, ghost n: Node) returns (r: Status)
      requires Parsed(n) && n == Capture(body) && captureCount <= CAPTURE_COUNT_MAX
      modifies this`captureCount, code
      ensures Outcome(r, n, back, old(captureCount), old(code.bytes), captureCount, code.bytes)
      ensures Sized(Atom, r, n, back, old(captureCount), |old(code.bytes)|)
      decreases body, 7
    {
      hide *;
      BodyParsed(n);
      CaptureIs(body);
      ghost var s0 := code.bytes;
      if captureCount >= CAPTURE_COUNT_MAX {
        RefusedCapture(body, captureCount, s0);
        OutcomeErr(TooManyCaptures, n, back, captureCount, s0, captureCount, s0);
        SizedOther(Atom, TooManyCaptures, n, back, captureCount, |s0|);
        return Err(TooManyCaptures);
      }
      var captureIndex := captureCount;
      captureCount := captureCount + 1;
      code.EmitOpU8(if back then OP_SAVE_END else OP_SAVE_START, captureIndex);
      ghost var s1 := code.bytes;
      r := ParseDisjunction(body, back);
      OutcomeParts(r, body, back, captureIndex + 1, s1, captureCount, code.bytes);
      SizedCapture(r, body, back, captureIndex, |s0|);
      if r.Err? {
        RefusedPart(r.error, n, body, 1, captureIndex, code.bytes);
        OutcomeErr(r.error, n, back, captureIndex, s0, captureCount, code.bytes);
        return;
      }
      ghost var s2 := code.bytes;
      code.EmitOpU8(if back then OP_SAVE_START else OP_SAVE_END, captureIndex);
      EmittedCapture(body, back, captureIndex, captureCount, s0, s1, s2, code.bytes);
      OutcomeOk(n, back, captureIndex, s0, captureCount, code.bytes);
    }

    /** A lookahead or lookbehind; the direction inside is its own. */
    method ParseLook(negated: bool, behind: bool, body: Node, back: bool, ghost n: Node) returns (r: Status)
      requires Parsed(n) && n == Look(negated, behind, body) && captureCount <= CAPTURE_COUNT_MAX
      modifies this`captureCount, code
      ensures Outcome(r, n, back, old(captureCount), old(code.bytes), captureCount, code.bytes)
      ensures Sized(Atom, r, n, back, old(captureCount), |old(code.bytes)|)
      decreases body, 7
    {
      hide *;
      BodyParsed(n);
      LookIs(negated, behind, body);
      WordSize(0);
      ghost var s0, cap0 := code.bytes, captureCount;
      var pos := code.EmitOpU32(LookOp(negated), 0);
      ghost var s1 := code.bytes;
      r := ParseDisjunction(body, behind);
      OutcomeParts(r, body, behind, cap0, s1, captureCount, code.bytes);
      SizedLook(r, negated, behind, body, back, cap0, |s0|);
      if r.Err? {
        RefusedPart(r.error, n, body, 0, cap0, code.bytes);
        OutcomeErr(r.error, n, back, cap0, s0, captureCount, code.bytes);
        return;
      }
      FinishLook(pos, negated, behind, body, back, cap0, s0, s1);
      OutcomeOk(n, back, cap0, s0, captureCount, code.bytes);
    }

    /** The end of a lookaround: its match, and the jump over it patched. */
    method FinishLook(pos: nat, ghost negated: bool, ghost behind: bool, ghost body: Node, ghost back: bool,
                      ghost cap0: nat,
                      ghost s0: seq<byte>, ghost s1: seq<byte>)
      requires s1 == s0 + ([LookOp(negated)] + U32(0)) && pos == |s0| + 1
      requires Emitted(body, behind, cap0, s1, captureCount, code.bytes)
      modifies code
      ensures Emitted(Look(negated, behind, body), back, cap0, s0, captureCount, code.bytes)
    {
      hide *;
      ghost var s2 := code.bytes;
      EmittedParts(body, behind, cap0, s1, captureCount, s2);
      EmittedLook(negated, behind, body, back, cap0, captureCount, s0, s1, s2);
      code.EmitOp(OP_MATCH);
      var len := |code.bytes| - (pos + 4);
      code.Store(pos, U32(len));
    }

    /** A character, `.` or class, between two steps back when going backward. */
    method EmitChar(n: Node, back: bool) returns (r: Status)
      requires Parsed(n) && IsOneChar(n) && captureCount <= CAPTURE_COUNT_MAX
      modifies code
      ensures Outcome(r, n, back, captureCount, old(code.bytes), captureCount, code.bytes)
      ensures r == Ok || r == Err(TooManyRanges)
    {
      hide Emitted;
      hide Encode;
      hide CharInstr;
      hide ClassInstr;
      hide Code;
      ghost var s0 := code.bytes;
      if back {
        code.EmitOp(OP_PREV);
      }
      ghost var i: Instr;
      match n {
        case Char(c) =>
          EmitCharacter(code, c);
          i := CharInstr(c);
        case AnyChar(lineTerminators) =>
          PlainBytes();
          code.EmitOp(if lineTerminators then OP_ANY else OP_DOT);
          i := if lineTerminators then Any else Dot;
        case Class(p) =>
          var ok := EmitRange(code, p);
          if !ok {
            return Err(TooManyRanges);
          }
          i := ClassInstr(p);
      }
      if back {
        code.EmitOp(OP_PREV);
      }
      OneCharCodes(n, back, captureCount);
      EmittedDirected(n, back, captureCount, s0, code.bytes, i);
      return Ok;
    }

    /** Assertions and back references. */
    method EmitSingle(n: Node, back: bool)
      requires Parsed(n) && (n.LineStart? || n.LineEnd? || n.WordBoundary? || n.BackRef?)
              && captureCount <= CAPTURE_COUNT_MAX
      modifies code
      ensures Emitted(n, back, captureCount, old(code.bytes), captureCount, code.bytes)
    {
      SingleCodes(n, back, captureCount);
      hide *;
      PlainBytes();
      ghost var s0 := code.bytes;
      ghost var i: Instr;
      match n {
        case LineStart =>
          code.EmitOp(OP_LINE_START);
          i := Instr.LineStart;
        case LineEnd =>
          code.EmitOp(OP_LINE_END);
          i := Instr.LineEnd;
        case WordBoundary(negated) =>
          code.EmitOp(if negated then OP_NOT_WORD_BOUNDARY else OP_WORD_BOUNDARY);
          i := if negated then NotWordBoundary else Instr.WordBoundary;
        case BackRef(g) =>
          SaveBytes(g);
          code.EmitOpU8(if back then OP_BACKWARD_BACK_REFERENCE else OP_BACK_REFERENCE, g);
          i := if back then BackwardBackReference(g) else BackReference(g);
      }
      EmittedOne(n, back, captureCount, s0, code.bytes, i);
    }
  }

  lemma RefusedMemory(n: Node, cap0: nat, after: seq<byte>)
    requires |after| >= SIZE_MAX
    ensures Refused(OutOfMemory, n, cap0, after)
  {
  }

  method EmitCharacter(b: Buffer, c: int)
    requires 0 <= c < 0x110000
    modifies b
    ensures b.bytes == old(b.bytes) + Encode(CharInstr(c))
  {
    assert CharInstr(c) == if c <= 0x7F then Char8(c) else if c <= 0xFFFF then Char16(c) else Char32(c);
    hide *;
    SaveBytes(c);
    Char16Bytes(c);
    JumpBytes(c);
    if c <= 0x7F {
      b.EmitOpU8(OP_CHAR8, c);
    } else if c <= 0xFFFF {
      b.EmitOpU16(OP_CHAR16, c);
    } else {
      var _ := b.EmitOpU32(OP_CHAR32, c);
    }
  }

  /** `re_emit_range`; false is the error "too many ranges". */
  method EmitRange(b: Buffer, points: seq<int>) returns (ok: bool)
    requires |points| % 2 == 0
    modifies b
    ensures ok == (|points| / 2 < 65535)
    ensures ok ==> b.bytes == old(b.bytes) + Encode(ClassInstr(points))
  {
    hide *;
    var len := |points| / 2;
    if len >= 65535 {
      return false;
    }
    if len == 0 {
      NoRangeBytes(points);
      var _ := b.EmitOpU32(OP_CHAR32, -1);
    } else {
      EmitTable(b, points);
    }
    return true;
  }

  method EmitTable(b: Buffer, points: seq<int>)
    requires |points| % 2 == 0 && |points| > 0
    modifies b
    ensures b.bytes == old(b.bytes) + Encode(ClassInstr(points))
  {
    hide *;
    ghost var s0 := b.bytes;
    var high := points[|points| - 1];
    if high == PointSets.UINT32_MAX {
      high := points[|points| - 2];
    }
    ClassBytes(points, high);
    if high <= 0xFFFF {
      b.EmitOpU16(OP_RANGE, |points| / 2);
      b.PutRanges16(points);
      Assoc3(s0, [OP_RANGE] + U16(|points| / 2), Words16(Bounds16(points)));
      Assoc3([OP_RANGE], U16(|points| / 2), Words16(Bounds16(points)));
    } else {
      b.EmitOpU16(OP_RANGE32, |points| / 2);
      b.PutRanges32(points);
      Assoc3(s0, [OP_RANGE32] + U16(|points| / 2), Words32(Bounds32(points)));
      Assoc3([OP_RANGE32], U16(|points| / 2), Words32(Bounds32(points)));
    }
  }

  lemma NoRangeBytes(p: seq<int>)
    requires |p| < 2
    ensures Encode(ClassInstr(p)) == [OP_CHAR32] + U32(-1)
  {
    hide *;
    EmptyClass(p);
    JumpBytes(PointSets.UINT32_MAX);
    AllOnes();
  }

  lemma EmptyClass(p: seq<int>)
    requires |p| < 2
    ensures ClassInstr(p) == Char32(PointSets.UINT32_MAX)
  {
  }

  lemma AllOnes()
    ensures U32(PointSets.UINT32_MAX) == U32(-1)
  {
  }

  lemma ClassInstrIs(p: seq<int>, high: int)
    requires |p| % 2 == 0 && |p| > 0 && high == if p[|p| - 1] == PointSets.UINT32_MAX then p[|p| - 2] else p[|p| - 1]
    ensures ClassInstr(p) == if high <= 0xFFFF then Range(Bounds16(p)) else Range32(Bounds32(p))
  {
    hide Bounds16;
    hide Bounds32;
  }

  lemma ClassBytes(p: seq<int>, high: int)
    requires |p| % 2 == 0 && |p| > 0 && high == if p[|p| - 1] == PointSets.UINT32_MAX then p[|p| - 2] else p[|p| - 1]
    ensures Encode(ClassInstr(p)) == if high <= 0xFFFF then [OP_RANGE] + (U16(|p| / 2) + Words16(Bounds16(p)))
                                     else [OP_RANGE32] + (U16(|p| / 2) + Words32(Bounds32(p)))
  {
    hide *;
    ClassInstrIs(p, high);
    TableBytes(ClassInstr(p));
  }
}
