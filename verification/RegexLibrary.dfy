/** `lre_compile` and `lre_exec` end to end: the buffer with its header that one produces and the
    other reads, and the promise the pair makes about matching. */
module RegexLibrary {
  import opened Bytes
  import opened Instructions
  import opened MatchInput
  import opened RegexSemantics
  import opened RegexCode
  import opened RegexAnalysis
  import opened RegexMachine
  import opened RegexLayout
  import opened RegexStack
  import opened RegexMatch
  import opened RegexExec
  import opened RegexScan
  import opened RegexBuffer
  import opened RegexQuantify
  import opened RegexCompiler
  import opened RegexLimits
  import opened RegexSize
  import P = Powers

  const HEADER_CAPTURE_COUNT: nat := 2
  const HEADER_STACK_SIZE: nat := 3
  const HEADER_BYTECODE_LEN: nat := 4
  const HEADER_LEN: nat := 8

  datatype CompileResult = Compiled(buf: seq<byte>) | Failed(error: CompileError)

  // The flag bits of libregexp.h.
  predicate IsMultiLine(flags: int) { (flags / 4) % 2 == 1 }

  predicate IsUnicode(flags: int) { (flags / 16) % 2 == 1 }

  predicate IsSticky(flags: int) { (flags / 32) % 2 == 1 }

  function One(b: bool): nat { if b then 1 else 0 }

  lemma BitAt(low: nat, b: bool, high: nat, p: nat)
    requires low < p && p in {4, 16, 32}
    ensures ((low + p * (One(b) + 2 * high)) / p) % 2 == One(b)
  {
    P.DivUnique(low + p * (One(b) + 2 * high), p, One(b) + 2 * high, low);
  }

  /** The flag bits, lowest first: global, ignore case, multiline, dot all, Unicode, sticky, and others above. */
  lemma FlagBits(g: bool, i: bool, m: bool, s: bool, u: bool, y: bool, above: nat)
    ensures var flags := One(g) + 2 * One(i) + 4 * One(m) + 8 * One(s) + 16 * One(u) + 32 * One(y) + 64 * above;
      IsMultiLine(flags) == m && IsUnicode(flags) == u && IsSticky(flags) == y
  {
    BitAt(One(g) + 2 * One(i), m, One(s) + 2 * One(u) + 4 * One(y) + 8 * above, 4);
    BitAt(One(g) + 2 * One(i) + 4 * One(m) + 8 * One(s), u, One(y) + 2 * above, 16);
    BitAt(One(g) + 2 * One(i) + 4 * One(m) + 8 * One(s) + 16 * One(u), y, above, 32);
  }

  function Header(flags: int, captures: int, stackSize: int, len: int): (h: seq<byte>)
    ensures |h| == HEADER_LEN
  {
    U16(flags) + [captures % 256, stackSize % 256] + U32(len)
  }

  /** The whole output of the compiler for a pattern it accepts. */
  function Image(n: Node, flags: int): seq<byte>
    requires WellFormed(n)
  {
    var prog := Program(n, IsSticky(flags));
    Header(flags, 1 + Groups(n), Peak(prog), Length(prog)) + Assemble(prog)
  }

  lemma FillHeader(flags: int, captures: int, stackSize: int, len: int, tail: seq<byte>)
    ensures var h := U16(flags) + [0, 0] + U32(0);
      Over(Over(Over(h + tail, 2, [captures % 256]), 3, [stackSize % 256]), 4, U32(len))
      == Header(flags, captures, stackSize, len) + tail
  {
    hide U16;
    hide U32;
    var h := U16(flags) + [0, 0] + U32(0);
    var h1 := U16(flags) + [captures % 256, 0] + U32(0);
    var h2 := U16(flags) + [captures % 256, stackSize % 256] + U32(0);
    assert Over(h + tail, 2, [captures % 256]) == h1 + tail;
    assert Over(h1 + tail, 3, [stackSize % 256]) == h2 + tail;
  }

  lemma PrefixBytes()
    ensures Assemble(SearchPrefix()) == ([OP_SPLIT_GOTO_FIRST] + U32(6)) + [OP_ANY] + ([OP_GOTO] + U32(-11))
  {
    assert SearchPrefix() == [SplitGotoFirst(6)] + [Any] + [Goto(-11)];
    hide *;
    FrameBytes(SplitGotoFirst(6), [Any], Goto(-11));
    AssembleOne(Any);
    JumpBytes(6);
    JumpBytes(-11);
    PlainBytes();
  }

  lemma ProgramBytes(n: Node, sticky: bool, prefix: seq<byte>)
    requires WellFormed(n) && prefix == if sticky then [] else Assemble(SearchPrefix())
    ensures WellFormed(Capture(n))
    ensures Assemble(Program(n, sticky)) == prefix + (Assemble(Code(Capture(n), false, 0)) + [OP_MATCH])
  {
    hide *;
    ProgramIs(n, sticky);
    AssembleNone();
    PlainBytes();
    TailBytes(Code(Capture(n), false, 0), Match);
    AssembleConcat(if sticky then [] else SearchPrefix(), Code(Capture(n), false, 0) + [Match]);
  }

  /** Everything the scan for the stack size relies on. */
  lemma ProgramScannable(n: Node, sticky: bool)
    requires WellFormed(n) && Groups(n) < 255
    ensures AllFit(Program(n, sticky)) && Balanced(Program(n, sticky), 0)
  {
    hide *;
    ProgramFit(n, sticky);
    ProgramTidy(n, sticky);
    TidyParts(Program(n, sticky));
    SupportedBalanced(Program(n, sticky), 0);
  }

  /** The size of the buffer when the pattern itself is reached. */
  function PatternStart(flags: int): nat {
    if IsSticky(flags) then 10 else 21
  }

  /** The size of the output for a pattern, and the stack it asks for, computed from the tree. */
  function ImageSize(n: Node, flags: int): nat {
    HEADER_LEN + ProgramExtent(n, IsSticky(flags)).size
  }

  function StackNeed(n: Node, flags: int): nat {
    ProgramExtent(n, IsSticky(flags)).peak
  }

  /** The patterns the compiler accepts. */
  ghost predicate Accepts(n: Node, flags: int) {
    && WellFormed(n) && Groups(n) < 255 && StackNeed(n, flags) <= STACK_SIZE_MAX
    && Checks(Disjunction, n, false, 1, PatternStart(flags)) < SIZE_MAX
  }

  lemma ImageMeasured(n: Node, flags: int)
    requires WellFormed(n)
    ensures |Image(n, flags)| == ImageSize(n, flags) && Peak(Program(n, IsSticky(flags))) == StackNeed(n, flags)
  {
    hide *;
    ImageIs(n, flags);
    NeedsAre(n, flags);
    AssembledLength(Program(n, IsSticky(flags)));
    ProgramMeasured(n, IsSticky(flags));
  }

  lemma NeedsAre(n: Node, flags: int)
    ensures ImageSize(n, flags) == HEADER_LEN + ProgramExtent(n, IsSticky(flags)).size
    ensures StackNeed(n, flags) == ProgramExtent(n, IsSticky(flags)).peak
  {
    hide ProgramExtent;
    hide IsSticky;
  }

  /** `lre_compile` of a pattern that has been read into a tree. It accepts exactly the patterns described, and the
      output is their image, of a size known beforehand. An error is reported only for its reason, and OutOfMemory
      exactly when a size that is checked reaches the limit. */
  method Compile(n: Node, flags: int) returns (r: CompileResult)
    requires Parsed(n) && 0 <= flags < 65536
    ensures r.Compiled? <==> Accepts(n, flags)
    ensures r.Compiled? ==> WellFormed(n) && Groups(n) < 255 && r.buf == Image(n, flags)
    ensures r.Compiled? ==> |r.buf| == ImageSize(n, flags)
    ensures r.Compiled? ==> Peak(Program(n, IsSticky(flags))) <= 255
    ensures r == Failed(TooManyCaptures) ==> Groups(n) >= 255
    ensures r == Failed(TooManyRanges) ==> !WellFormed(n)
    ensures WellFormed(n) && Groups(n) < 255
            ==> (r == Failed(OutOfMemory) <==> Checks(Disjunction, n, false, 1, PatternStart(flags)) >= 0x400_0000)
    ensures r == Failed(TooManyQuantifiers) ==> WellFormed(n) && Peak(Program(n, IsSticky(flags))) > 255
  {
    hide *;
    var c := new Compiler();
    var b := c.code;
    b.PutU16(flags);
    b.PutByte(0);
    b.PutByte(0);
    b.PutU32(0);
    ghost var h := b.bytes;
    FreshHeader(flags);
    ghost var prefix: seq<byte> := [];
    if !IsSticky(flags) {
      PrefixBytes();
      var _ := b.EmitOpU32(OP_SPLIT_GOTO_FIRST, 1 + 5);
      b.EmitOp(OP_ANY);
      var _ := b.EmitOpU32(OP_GOTO, -(5 + 1 + 5));
      prefix := Assemble(SearchPrefix());
      Assoc3(h + ([OP_SPLIT_GOTO_FIRST] + U32(6)), [OP_ANY], [OP_GOTO] + U32(-11));
      Assoc4(h, [OP_SPLIT_GOTO_FIRST] + U32(6), [OP_ANY], [OP_GOTO] + U32(-11));
    }
    ghost var s0 := b.bytes;
    b.EmitOpU8(OP_SAVE_START, 0);
    ghost var s1 := b.bytes;
    StartIs(flags, h, prefix, s1);
    var status := c.ParseDisjunction(n, false);
    SizedIs(status, n, |s1|);
    OutcomeParts(status, n, false, 1, s1, c.captureCount, b.bytes);
    AcceptsIs(n, flags);
    if status.Err? {
      RefusedWhy(status.error, n, b.bytes);
      return Failed(status.error);
    }
    EmittedParts(n, false, 1, s1, c.captureCount, b.bytes);
    ghost var s2 := b.bytes;
    b.EmitOpU8(OP_SAVE_END, 0);
    EmittedCapture(n, false, 0, c.captureCount, s0, s1, s2, b.bytes);
    EmittedParts(Capture(n), false, 0, s0, c.captureCount, b.bytes);
    b.EmitOp(OP_MATCH);
    r := Finish(b, c.captureCount, n, flags, h, prefix);
  }

  lemma AcceptsIs(n: Node, flags: int)
    ensures Accepts(n, flags)
        <==> && WellFormed(n) && Groups(n) < 255 && Peak(Program(n, IsSticky(flags))) <= STACK_SIZE_MAX
             && Checks(Disjunction, n, false, 1, PatternStart(flags)) < SIZE_MAX
    ensures WellFormed(n) ==> |Image(n, flags)| == ImageSize(n, flags)
  {
    hide *;
    AcceptsUnfolded(n, flags);
    if WellFormed(n) {
      ImageMeasured(n, flags);
    }
  }

  lemma AcceptsUnfolded(n: Node, flags: int)
    ensures Accepts(n, flags)
        <==> && WellFormed(n) && Groups(n) < 255 && StackNeed(n, flags) <= STACK_SIZE_MAX
             && Checks(Disjunction, n, false, 1, PatternStart(flags)) < SIZE_MAX
  {
    hide Checks;
    hide StackNeed;
    hide WellFormed;
    hide Groups;
  }

  lemma StartIs(flags: int, h: seq<byte>, prefix: seq<byte>, s1: seq<byte>)
    requires |h| == 8 && prefix == (if IsSticky(flags) then [] else Assemble(SearchPrefix()))
    requires s1 == h + prefix + ([OP_SAVE_START] + [0 % 256])
    ensures |s1| == PatternStart(flags)
  {
    PrefixBytes();
    WordSize(6);
    WordSize(-11);
    hide Assemble;
    hide U32;
  }

  lemma SizedIs(status: Status, n: Node, start: nat)
    requires RegexCompiler.Sized(Disjunction, status, n, false, 1, start)
    ensures status == Ok ==> WellFormed(n) && Checks(Disjunction, n, false, 1, start) < SIZE_MAX
    ensures status == Err(OutOfMemory) && WellFormed(n) ==> Checks(Disjunction, n, false, 1, start) >= SIZE_MAX
  {
    hide Checks;
  }

  lemma FreshHeader(flags: int)
    ensures [] + U16(flags) + [0 % 256] + [0 % 256] + U32(0) == U16(flags) + [0, 0] + U32(0)
    ensures |U16(flags) + [0, 0] + U32(0)| == HEADER_LEN == 8 && CAPTURE_COUNT_MAX == 255
    ensures STACK_SIZE_MAX == 255 && SIZE_MAX == 64 * 1024 * 1024
  {
  }

  lemma RefusedWhy(e: CompileError, n: Node, after: seq<byte>)
    requires Refused(e, n, 1, after)
    ensures e == TooManyCaptures ==> Groups(n) >= 255
    ensures e == TooManyRanges ==> !WellFormed(n)
    ensures e != TooManyQuantifiers
  {
  }

  /** The stack size is computed and the header filled in. */
  method Finish(b: Buffer, captureCount: nat, ghost n: Node, ghost flags: int, ghost h: seq<byte>,
                ghost prefix: seq<byte>)
    returns (r: CompileResult)
    requires WellFormed(n) && WellFormed(Capture(n)) && captureCount == 1 + Groups(n) <= 255
    requires h == U16(flags) + [0, 0] + U32(0) && |h| == HEADER_LEN == 8
    requires prefix == if IsSticky(flags) then [] else Assemble(SearchPrefix())
    requires b.bytes == h + prefix + Assemble(Code(Capture(n), false, 0)) + [OP_MATCH]
    modifies b
    ensures r.Compiled? ==> r.buf == Image(n, flags) && Peak(Program(n, IsSticky(flags))) <= STACK_SIZE_MAX
    ensures r.Failed? ==> r.error == TooManyQuantifiers && Peak(Program(n, IsSticky(flags))) > STACK_SIZE_MAX
  {
    hide *;
    ghost var prog := Program(n, IsSticky(flags));
    ProgramBytes(n, IsSticky(flags), prefix);
    Assoc4(h, prefix, Assemble(Code(Capture(n), false, 0)), [OP_MATCH]);
    Assoc3(prefix, Assemble(Code(Capture(n), false, 0)), [OP_MATCH]);
    assert b.bytes == h + Assemble(prog);
    ProgramScannable(n, IsSticky(flags));
    AssembledLength(prog);
    HeaderPlaces();
    assert b.bytes[HEADER_LEN..] == Assemble(prog);
    var stackSize := ComputeStackSize(b.bytes[HEADER_LEN..], prog);
    if stackSize < 0 {
      return Failed(TooManyQuantifiers);
    }
    FillHeader(flags, captureCount, stackSize, Length(prog), Assemble(prog));
    ImageIs(n, flags);
    var len := |b.bytes| - HEADER_LEN;
    b.Store(HEADER_CAPTURE_COUNT, [captureCount % 256]);
    b.Store(HEADER_STACK_SIZE, [stackSize % 256]);
    b.Store(HEADER_BYTECODE_LEN, U32(len));
    return Compiled(b.bytes);
  }

  lemma HeaderPlaces()
    ensures HEADER_CAPTURE_COUNT == 2 && HEADER_STACK_SIZE == 3 && HEADER_BYTECODE_LEN == 4 && HEADER_LEN == 8
    ensures STACK_SIZE_MAX == 255
  {
  }

  lemma ImageIs(n: Node, flags: int)
    requires WellFormed(n)
    ensures var prog := Program(n, IsSticky(flags));
      Image(n, flags) == Header(flags, 1 + Groups(n), Peak(prog), Length(prog)) + Assemble(prog)
  {
    hide Program;
    hide Header;
  }

  // ----- running what was compiled -----

  /** The environment `lre_exec` reads out of the header. */
  function Context(buf: seq<byte>, units: seq<unit>, wide: bool): Env
    requires |buf| >= HEADER_LEN
  {
    var flags := GetU16(buf, 0);
    Env(Input(units, wide && IsUnicode(flags)), IsMultiLine(flags), buf[HEADER_CAPTURE_COUNT])
  }

  lemma HeaderReads(n: Node, flags: int, buf: seq<byte>)
    requires WellFormed(n) && Groups(n) < 255 && 0 <= flags < 65536 && buf == Image(n, flags)
    requires Peak(Program(n, IsSticky(flags))) <= 255
    ensures |buf| >= HEADER_LEN && GetU16(buf, 0) == flags
    ensures buf[HEADER_CAPTURE_COUNT] == 1 + Groups(n) && buf[HEADER_STACK_SIZE] == Peak(Program(n, IsSticky(flags)))
    ensures buf[HEADER_LEN..] == Assemble(Program(n, IsSticky(flags)))
  {
    hide *;
    HeaderPlaces();
    var prog := Program(n, IsSticky(flags));
    ImageIs(n, flags);
    HeaderFields(flags, 1 + Groups(n), Peak(prog), Length(prog), Assemble(prog), buf);
  }

  lemma HeaderFields(flags: int, captures: nat, stackSize: nat, len: int, tail: seq<byte>, buf: seq<byte>)
    requires 0 <= flags < 65536 && captures < 256 && stackSize < 256
    requires buf == Header(flags, captures, stackSize, len) + tail
    ensures |buf| >= 8 && GetU16(buf, 0) == flags && buf[2] == captures && buf[3] == stackSize && buf[8..] == tail
  {
    hide U32;
    var h := Header(flags, captures, stackSize, len);
    assert forall i :: 0 <= i < 4 ==> buf[i] == h[i];
  }

  lemma LoadedImage(n: Node, flags: int, buf: seq<byte>, e: Env)
    requires WellFormed(n) && Groups(n) < 255 && |buf| >= HEADER_LEN && |buf| < TWO_TO_THE_31
    requires buf[HEADER_LEN..] == Assemble(Program(n, IsSticky(flags))) && e.groups == 1 + Groups(n)
    ensures Loaded(Machine(buf[HEADER_LEN..], e), n, IsSticky(flags))
  {
    hide Program;
    hide Assemble;
  }

  /** What a run reports: whether the pattern matches from `p` on, and the captures of the first match. */
  ghost predicate Reports(e: Env, n: Node, sticky: bool, p: nat, ret: bool, caps: seq<int>) {
    var matches := AllMatches(e, n, sticky, p);
    ret == (matches != []) && (ret ==> caps == matches[0].caps)
  }

  lemma ReportsAre(e: Env, n: Node, sticky: bool, p: nat, ret: bool, caps: seq<int>)
    ensures var matches := AllMatches(e, n, sticky, p);
      Reports(e, n, sticky, p, ret, caps) <==> ret == (matches != []) && (ret ==> caps == matches[0].caps)
  {
    hide AllMatches;
  }

  /** `lre_exec` on the output of `lre_compile`: for every pattern, every input and every start at a
      character boundary it says whether the pattern matches there (or, unless sticky, anywhere
      after), and leaves the captures of the first match. The offsets of the code are C ints. */
  method Execute(capture: array<int>, buf: seq<byte>, cindex: nat, units: seq<unit>, wide: bool, ghost n: Node,
                 ghost flags: int)
    returns (ret: bool)
    requires WellFormed(n) && Groups(n) < 255 && 0 <= flags < 65536 && buf == Image(n, flags) && |buf| < TWO_TO_THE_31
    requires Peak(Program(n, IsSticky(flags))) <= STACK_SIZE_MAX
    requires |buf| >= HEADER_LEN && capture.Length == 2 * Context(buf, units, wide).groups
    requires Input(units, wide && IsUnicode(flags)).Boundary(cindex)
    modifies capture
    ensures Context(buf, units, wide) == Env(Input(units, wide && IsUnicode(flags)), IsMultiLine(flags), 1 + Groups(n))
    ensures Reports(Context(buf, units, wide), n, IsSticky(flags), cindex, ret, capture[..])
  {
    HeaderReads(n, flags, buf);
    hide AllMatches;
    hide Reports;
    hide Image;
    hide Program;
    hide Peak;
    hide Input.Boundary;
    hide IsUnicode;
    hide IsMultiLine;
    hide IsSticky;
    var e := Context(buf, units, wide);
    LoadedImage(n, flags, buf, e);
    ret := Exec(Machine(buf[HEADER_LEN..], e), capture, buf[HEADER_STACK_SIZE], cindex, n, IsSticky(flags));
    ReportsAre(e, n, IsSticky(flags), cindex, ret, capture[..]);
  }

  /** Compiling and matching in one: whenever the compiler accepts a pattern and the size of its output, known from
      the tree, fits the C ints, the match reports what the pattern means. */
  method CompileAndExecute(n: Node, flags: int, cindex: nat, units: seq<unit>, wide: bool)
    returns (r: CompileResult, ret: bool, capture: array<int>)
    requires Parsed(n) && 0 <= flags < 65536 && Input(units, wide && IsUnicode(flags)).Boundary(cindex)
    ensures r.Compiled? <==> Accepts(n, flags)
    ensures r.Compiled? ==> (|r.buf| < TWO_TO_THE_31 <==> ImageSize(n, flags) < TWO_TO_THE_31)
    ensures Accepts(n, flags) && ImageSize(n, flags) < TWO_TO_THE_31 ==>
      Reports(Env(Input(units, wide && IsUnicode(flags)), IsMultiLine(flags), 1 + Groups(n)), n, IsSticky(flags),
              cindex, ret, capture[..])
  {
    hide *;
    r := Compile(n, flags);
    ret, capture := false, new int[0];
    if r.Compiled? && |r.buf| < TWO_TO_THE_31 {
      HeaderPlaces();
      HeaderReads(n, flags, r.buf);
      ContextIs(r.buf, units, wide);
      capture := new int[2 * (r.buf[HEADER_CAPTURE_COUNT] as int)];
      ret := Execute(capture, r.buf, cindex, units, wide, n, flags);
    }
  }

  lemma ContextIs(buf: seq<byte>, units: seq<unit>, wide: bool)
    requires |buf| >= HEADER_LEN
    ensures Context(buf, units, wide).groups == buf[HEADER_CAPTURE_COUNT]
  {
  }

  // ----- small checks do not mean a small program -----

  /** `(?:(?:a{2,3}?){2,3}?)...`, `k` quantifiers deep. */
  function Deep(k: nat): Node {
    if k == 0 then Char(97) else Repeat(Deep(k - 1), 2, 3, false)
  }

  /** The size of the program is not bounded by the sizes checked: every level of such a pattern at
      least doubles the code, while every check sees the buffer before the first byte of it. With 31
      levels the compiler accepts the pattern and the program is past the range of the C ints that
      hold its offsets. */
  lemma SizeUnchecked(k: nat, flags: int)
    requires k <= 127
    ensures Parsed(Deep(k)) && Accepts(Deep(k), flags)
    ensures Checks(Disjunction, Deep(k), false, 1, PatternStart(flags)) == PatternStart(flags)
    ensures ImageSize(Deep(k), flags) >= P.Pow2(k)
  {
    DeepPlain(k);
    DeepChecks(k, PatternStart(flags));
    DeepMeasure(k);
    DeepProgram(k, flags);
  }

  /** 31 levels are enough. */
  lemma TooLong(flags: int)
    ensures Parsed(Deep(31)) && Accepts(Deep(31), flags) && ImageSize(Deep(31), flags) >= TWO_TO_THE_31
  {
    hide *;
    SizeUnchecked(31, flags);
    IntLimit();
  }

  lemma IntLimit()
    ensures P.Pow2(31) == TWO_TO_THE_31
  {
    P.Pow2Add(16, 15);
    P.Pow2Add(8, 8);
    P.Pow2Add(8, 7);
    assert P.Pow2(7) == 128 && P.Pow2(8) == 256;
    hide P.Pow2;
  }

  lemma {:induction false} DeepPlain(k: nat)
    ensures Parsed(Deep(k)) && WellFormed(Deep(k)) && Groups(Deep(k)) == 0
  {
    if k > 0 {
      DeepPlain(k - 1);
    }
  }

  lemma {:induction false} DeepChecks(k: nat, start: nat)
    requires WellFormed(Deep(k))
    ensures Checks(Disjunction, Deep(k), false, 1, start) == start
  {
    if k > 0 {
      DeepPlain(k - 1);
      DeepChecks(k - 1, start);
      DeepStep(k, start);
    }
  }

  lemma DeepStep(k: nat, start: nat)
    requires k > 0 && WellFormed(Deep(k)) && WellFormed(Deep(k - 1))
    ensures Checks(Disjunction, Deep(k), false, 1, start) == Checks(Atom, Deep(k - 1), false, 1, start)
    ensures Checks(Atom, Deep(k - 1), false, 1, start)
         == if k == 1 then start else Checks(Disjunction, Deep(k - 1), false, 1, start)
  {
    var n := Deep(k);
    assert n.Repeat? && n.body == Deep(k - 1);
    assert Checks(Alternative, n, false, 1, start) == Checks(Term, n, false, 1, start);
  }

  /** A lazy repeat from 2 to 3 at least doubles the code of its atom, and takes at most two entries more. */
  lemma Doubled(e: Extent, groups: nat)
    requires e.depth == 0
    ensures var r := RepeatExtent(e, groups, 2, 3, false);
      r.size >= 2 * e.size && r.depth == 0 && r.peak <= e.peak + 2
  {
  }

  /** The code of the `k` levels: at least 2^k bytes and at most 2k entries of stack. */
  lemma {:induction false} DeepMeasure(k: nat)
    ensures var e := Measure(Deep(k), false);
      e.size >= P.Pow2(k) && e.depth == 0 && e.peak <= 2 * k
  {
    hide *;
    if k == 0 {
      DeepestMeasure();
    } else {
      DeepMeasure(k - 1);
      Doubled(Measure(Deep(k - 1), false), Groups(Deep(k - 1)));
      P.Pow2Step(k - 1);
      DeepIs(k);
      MeasureIs(Deep(k), false);
    }
  }

  lemma DeepestMeasure()
    ensures Measure(Deep(0), false) == CharExtent(2) == Extent(2, 1, true, true, 0, 0) && P.Pow2(0) == 1
  {
  }

  lemma DeepIs(k: nat)
    requires k > 0
    ensures Deep(k) == Repeat(Deep(k - 1), 2, 3, false)
  {
  }

  lemma DeepProgram(k: nat, flags: int)
    requires k <= 127
    requires var e := Measure(Deep(k), false); e.size >= P.Pow2(k) && e.depth == 0 && e.peak <= 2 * k
    ensures StackNeed(Deep(k), flags) <= STACK_SIZE_MAX && ImageSize(Deep(k), flags) >= P.Pow2(k)
  {
    MeasureIs(Capture(Deep(k)), false);
    hide Measure;
    hide Deep;
  }
}
