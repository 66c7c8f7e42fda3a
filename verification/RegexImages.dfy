/** The whole output of the compiler for two patterns, byte by byte. */
module RegexImages {
  import opened Bytes
  import opened Instructions
  import opened RegexSemantics
  import opened RegexCode
  import opened RegexQuantify
  import opened RegexSize
  import opened RegexLibrary

  /** `a` repeated any number of times, greedily. */
  const STAR: Node := Repeat(Char(0x61), 0, 0x7FFF_FFFF, true)

  /** `a` or `b`. */
  const EITHER: Node := Alt(Char(0x61), Char(0x62))

  lemma Ends()
    ensures Encode(SaveStart(0)) == [12, 0] && Encode(SaveEnd(0)) == [13, 0] && Encode(Match) == [11]
    ensures Encode(Char8(0x61)) == [1, 0x61] && Encode(Char8(0x62)) == [1, 0x62] && Encode(Any) == [5]
  {
  }

  lemma Jumps()
    ensures Encode(SplitGotoFirst(6)) == [9, 6, 0, 0, 0] && Encode(Goto(-11)) == [8, 245, 255, 255, 255]
    ensures Encode(SplitNextFirst(7)) == [10, 7, 0, 0, 0] && Encode(Goto(2)) == [8, 2, 0, 0, 0]
  {
  }

  lemma Quantifier()
    ensures Encode(SimpleGreedyQuant(3, 0, 0x7FFF_FFFF, 1))
         == [29, 3, 0, 0, 0, 0, 0, 0, 0, 255, 255, 255, 127, 1, 0, 0, 0]
  {
  }

  // ----- The code -----

  lemma OneChar(c: int, cap: nat)
    requires 0 <= c < 0x80
    ensures WellFormed(Char(c)) && Code(Char(c), false, cap) == [Char8(c)] && Length([Char8(c)]) == 2
    ensures SimpleCount([Char8(c)]) == 1
  {
    assert [Char8(c)][1..] == [];
  }

  lemma StarCode()
    ensures WellFormed(STAR)
    ensures Code(STAR, false, 1) == [SimpleGreedyQuant(3, 0, 0x7FFF_FFFF, 1)] + ([Char8(0x61)] + [Match])
  {
    OneChar(0x61, 1);
    hide Length, SimpleCount, MandatoryCode, OptionalCode, MayStay;
  }

  lemma EitherOf()
    ensures WellFormed(EITHER)
    ensures Code(EITHER, false, 1)
         == [SplitNextFirst(7)] + [Char8(0x61)] + [Goto(2)] + [Char8(0x62)]
  {
    OneChar(0x61, 1);
    OneChar(0x62, 1);
    hide Length, SimpleCount;
  }

  lemma ProgramOf(n: Node, c: seq<Instr>, sticky: bool)
    requires WellFormed(n) && Code(n, false, 1) == c
    ensures Program(n, sticky)
         == (if sticky then [] else SearchPrefix()) + ([SaveStart(0)] + c + [SaveEnd(0)] + [Match])
  {
    assert Code(Capture(n), false, 0) == [SaveStart(0)] + Code(n, false, 1) + [SaveEnd(0)];
    hide SearchPrefix;
  }

  // ----- The images -----

  lemma Wrapped(c: seq<Instr>, b: seq<byte>)
    requires Assemble(c) == b
    ensures Assemble([SaveStart(0)] + c + [SaveEnd(0)] + [Match]) == [12, 0] + b + [13, 0] + [11]
  {
    hide *;
    Ends();
    AssembleOne(SaveStart(0));
    AssembleOne(SaveEnd(0));
    AssembleOne(Match);
    AssembleConcat([SaveStart(0)], c);
    AssembleConcat([SaveStart(0)] + c, [SaveEnd(0)]);
    AssembleConcat([SaveStart(0)] + c + [SaveEnd(0)], [Match]);
  }

  lemma StarBytes()
    ensures WellFormed(STAR)
    ensures Assemble(Code(STAR, false, 1))
         == [29, 3, 0, 0, 0, 0, 0, 0, 0, 255, 255, 255, 127, 1, 0, 0, 0] + ([1, 0x61] + [11])
  {
    StarCode();
    hide *;
    Ends();
    Quantifier();
    var q := SimpleGreedyQuant(3, 0, 0x7FFF_FFFF, 1);
    AssembleOne(q);
    AssembleOne(Char8(0x61));
    AssembleOne(Match);
    AssembleConcat([Char8(0x61)], [Match]);
    AssembleConcat([q], [Char8(0x61)] + [Match]);
  }

  lemma EitherBytes()
    ensures WellFormed(EITHER)
    ensures Assemble(Code(EITHER, false, 1)) == [10, 7, 0, 0, 0] + [1, 0x61] + [8, 2, 0, 0, 0] + [1, 0x62]
  {
    EitherOf();
    hide *;
    Ends();
    Jumps();
    AssembleOne(SplitNextFirst(7));
    AssembleOne(Char8(0x61));
    AssembleOne(Goto(2));
    AssembleOne(Char8(0x62));
    AssembleConcat([SplitNextFirst(7)], [Char8(0x61)]);
    AssembleConcat([SplitNextFirst(7)] + [Char8(0x61)], [Goto(2)]);
    AssembleConcat([SplitNextFirst(7)] + [Char8(0x61)] + [Goto(2)], [Char8(0x62)]);
  }

  lemma PrefixIs()
    ensures Assemble(SearchPrefix()) == [9, 6, 0, 0, 0] + [5] + [8, 245, 255, 255, 255]
  {
    assert SearchPrefix() == [SplitGotoFirst(6)] + [Any] + [Goto(-11)];
    hide *;
    Ends();
    Jumps();
    AssembleOne(SplitGotoFirst(6));
    AssembleOne(Any);
    AssembleOne(Goto(-11));
    AssembleConcat([SplitGotoFirst(6)], [Any]);
    AssembleConcat([SplitGotoFirst(6)] + [Any], [Goto(-11)]);
  }

  /** The header: flags, one group, the stack size and the length of the program, low bytes first. */
  lemma HeaderIs(n: Node, flags: int, stack: nat, prog: seq<byte>)
    requires WellFormed(n) && Groups(n) == 0 && 0 <= flags < 256 && |prog| < 256 && stack < 256
    requires Assemble(Program(n, IsSticky(flags))) == prog && StackNeed(n, flags) == stack
    ensures Image(n, flags) == [flags, 0, 1, stack, |prog|, 0, 0, 0] + prog
  {
    hide *;
    ImageIs(n, flags);
    ImageMeasured(n, flags);
    AssembledLength(Program(n, IsSticky(flags)));
    HeaderBytes(flags, stack, |prog|);
  }

  lemma HeaderBytes(flags: int, stack: nat, len: nat)
    requires 0 <= flags < 256 && len < 256 && stack < 256
    ensures Header(flags, 1, stack, len) == [flags, 0, 1, stack, len, 0, 0, 0]
  {
  }

  lemma SimpleNeeds()
    ensures Groups(STAR) == 0 && Groups(EITHER) == 0 && IsSticky(32) && !IsSticky(0)
    ensures ProgramExtent(STAR, true).peak == 0 && ProgramExtent(EITHER, false).peak == 0
  {
    hide *;
    NoGroups();
    StarExtent();
    EitherExtents();
    NoStack(STAR, true);
    NoStack(EITHER, false);
  }

  lemma NoGroups()
    ensures Groups(STAR) == 0 && Groups(EITHER) == 0 && IsSticky(32) && !IsSticky(0)
  {
  }

  lemma NoStack(n: Node, sticky: bool)
    requires Measure(n, false).depth == 0 && Measure(n, false).peak == 0
    ensures ProgramExtent(n, sticky).peak == 0
  {
    hide *;
    MeasureIs(Capture(n), false);
    ProgramExtentIs(n, sticky);
    FlatJoins(Measure(n, false), sticky);
  }

  lemma FlatJoins(e: Extent, sticky: bool)
    requires e.depth == 0 && e.peak == 0
    ensures Join(if sticky then NOTHING else Extent(11, -1, false, true, 0, 0),
                 Join(Join(Join(Plain(2, 0), e), Plain(2, 0)), Jump(1, 0))).peak == 0
  {
  }

  lemma StarExtent()
    ensures Measure(STAR, false).depth == 0 && Measure(STAR, false).peak == 0
  {
    MeasureIs(STAR, false);
    LetterExtent(0x61);
    hide Measure;
  }

  lemma EitherExtents()
    ensures Measure(EITHER, false).depth == 0 && Measure(EITHER, false).peak == 0
  {
    MeasureIs(EITHER, false);
    LetterExtent(0x61);
    LetterExtent(0x62);
    hide Measure;
  }

  lemma LetterExtent(c: int)
    requires 0 <= c < 0x80
    ensures Measure(Char(c), false) == CharExtent(2)
  {
  }

  /** `a` any number of times, sticky: a simple greedy quantifier over one character. */
  lemma StarImage()
    ensures WellFormed(STAR)
    ensures Image(STAR, 32)
         == [32, 0, 1, 0, 25, 0, 0, 0]
            + ([12, 0]
               + ([29, 3, 0, 0, 0, 0, 0, 0, 0, 255, 255, 255, 127, 1, 0, 0, 0] + ([1, 0x61] + [11]))
               + [13, 0] + [11])
  {
    StarBytes();
    SimpleNeeds();
    hide *;
    var c := Code(STAR, false, 1);
    ProgramOf(STAR, c, true);
    Wrapped(c, Assemble(c));
    var whole := [SaveStart(0)] + c + [SaveEnd(0)] + [Match];
    assert [] + whole == whole;
    NeedsAre(STAR, 32);
    HeaderIs(STAR, 32, 0, Assemble(Program(STAR, true)));
  }

  /** `a` or `b`, searched for: the loop over start positions, a split and a jump, with a negative offset. */
  lemma EitherImage()
    ensures WellFormed(EITHER)
    ensures Image(EITHER, 0)
         == [0, 0, 1, 0, 30, 0, 0, 0]
            + ([9, 6, 0, 0, 0] + [5] + [8, 245, 255, 255, 255]
               + ([12, 0] + ([10, 7, 0, 0, 0] + [1, 0x61] + [8, 2, 0, 0, 0] + [1, 0x62]) + [13, 0] + [11]))
  {
    EitherBytes();
    SimpleNeeds();
    hide *;
    var c := Code(EITHER, false, 1);
    ProgramOf(EITHER, c, false);
    Wrapped(c, Assemble(c));
    PrefixIs();
    AssembleConcat(SearchPrefix(), [SaveStart(0)] + c + [SaveEnd(0)] + [Match]);
    NeedsAre(EITHER, 0);
    HeaderIs(EITHER, 0, 0, Assemble(Program(EITHER, false)));
  }
}
