/** The quantifier part of `re_parse_term`: prologues inserted before the atom that is already in
    the buffer, operands patched, the atom copied. Whatever the branch, the buffer ends up as the
    code of the repeat. */
module RegexQuantify {
  import opened Bytes
  import opened Instructions
  import opened RegexSemantics
  import opened RegexCode
  import opened RegexScan
  import opened RegexStack
  import opened RegexBuffer

  function GuardBytes(check: bool, atom: seq<byte>): seq<byte> {
    if check then [OP_PUSH_CHAR_POS] + atom + [OP_CHECK_ADVANCE] else atom
  }

  lemma GuardedBytes(check: bool, c: seq<Instr>)
    ensures Assemble(Guarded(check, c)) == GuardBytes(check, Assemble(c))
    ensures Length(Guarded(check, c)) == Length(c) + (if check then 2 else 0)
  {
    if check {
      hide *;
      GuardedParts(c);
      AssembleConcat([PushCharPos] + c, [CheckAdvance]);
      AssembleConcat([PushCharPos], c);
      AssembleOne(PushCharPos);
      AssembleOne(CheckAdvance);
      PlainBytes();
      GuardBytesAre(Assemble(c));
      AssembledLength(Guarded(true, c));
      AssembledLength(c);
    } else {
      hide Length;
    }
  }

  lemma GuardedParts(c: seq<Instr>)
    ensures Guarded(true, c) == [PushCharPos] + c + [CheckAdvance]
  {
  }

  lemma GuardBytesAre(atom: seq<byte>)
    ensures GuardBytes(true, atom) == [OP_PUSH_CHAR_POS] + atom + [OP_CHECK_ADVANCE]
  {
  }

  lemma AssembledLength(c: seq<Instr>)
    ensures |Assemble(c)| == Length(c)
  {
  }

  /** The bytes of an instruction, a piece and an instruction. */
  lemma FrameBytes(x: Instr, g: seq<Instr>, y: Instr)
    ensures Assemble([x] + g + [y]) == Encode(x) + Assemble(g) + Encode(y)
  {
    hide *;
    AssembleConcat([x] + g, [y]);
    AssembleConcat([x], g);
    AssembleOne(x);
    AssembleOne(y);
  }

  lemma HeadBytes(x: Instr, g: seq<Instr>)
    ensures Assemble([x] + g) == Encode(x) + Assemble(g)
  {
    hide *;
    AssembleConcat([x], g);
    AssembleOne(x);
  }

  lemma TailBytes(g: seq<Instr>, y: Instr)
    ensures Assemble(g + [y]) == Assemble(g) + Encode(y)
  {
    hide *;
    AssembleConcat(g, [y]);
    AssembleOne(y);
  }

  /** What an insertion leaves, with the gap named. */
  lemma Gap(before: seq<byte>, after: seq<byte>, base: seq<byte>, tail: seq<byte>, len: nat) returns (gap: seq<byte>)
    requires before == base + tail && |after| == |before| + len
    requires after[..|base|] == before[..|base|] && after[|base| + len..] == before[|base|..]
    ensures |gap| == len && after == base + gap + tail
  {
    gap := after[|base|..|base| + len];
    assert after == after[..|base|] + gap + after[|base| + len..];
  }

  /** Storing into a gap; `k` is the place within it. */
  method Fill(b: Buffer, pos: nat, piece: seq<byte>, ghost base: seq<byte>, ghost gap: seq<byte>,
              ghost tail: seq<byte>, ghost k: nat)
    returns (ghost g: seq<byte>)
    requires b.bytes == base + gap + tail && pos == |base| + k && k + |piece| <= |gap|
    modifies b
    ensures |g| == |gap| && g == Over(gap, k, piece) && b.bytes == base + g + tail
  {
    hide Over;
    OverMiddle(base, gap, tail, k, piece);
    g := Over(gap, k, piece);
    b.Store(pos, piece);
  }

  /** Inserting a five byte instruction before what follows `base`. */
  method InsertJump(b: Buffer, pos: nat, op: byte, v: int, ghost base: seq<byte>, ghost tail: seq<byte>)
    requires b.bytes == base + tail && pos == |base|
    modifies b
    ensures b.bytes == base + ([op] + U32(v)) + tail
  {
    hide *;
    b.Insert(pos, 5);
    ghost var gap := Gap(base + tail, b.bytes, base, tail, 5);
    FillByteWord(gap, op, v);
    gap := Fill(b, pos, [op], base, gap, tail, 0);
    gap := Fill(b, pos + 1, U32(v), base, gap, tail, 1);
  }

  method PatchQuant(b: Buffer, start: nat, next: int, min: int, max: int, len: int,
                    ghost base: seq<byte>, ghost gap: seq<byte>, ghost tail: seq<byte>)
    requires b.bytes == base + gap + tail && start == |base| && |gap| == 17
    modifies b
    ensures b.bytes == base + Encode(SimpleGreedyQuant(next, min, max, len)) + tail
  {
    hide *;
    QuantBytes(next, min, max, len);
    FillWords(gap, OP_SIMPLE_GREEDY_QUANT, next, min, max, len);
    var pos := start;
    ghost var g := Fill(b, pos, [OP_SIMPLE_GREEDY_QUANT], base, gap, tail, 0);
    pos := pos + 1;
    g := Fill(b, pos, U32(next), base, g, tail, 1);
    pos := pos + 4;
    g := Fill(b, pos, U32(min), base, g, tail, 5);
    pos := pos + 4;
    g := Fill(b, pos, U32(max), base, g, tail, 9);
    pos := pos + 4;
    g := Fill(b, pos, U32(len), base, g, tail, 13);
  }

  /** `x{min,max}` over an atom of fixed character count. */
  method QuantifySimple(b: Buffer, start: nat, min: int, max: int, len: nat, ghost base: seq<byte>, ghost c: seq<Instr>)
    requires b.bytes == base + Assemble(c) && start == |base| && len == SimpleCount(c)
    modifies b
    ensures b.bytes == base + Assemble([SimpleGreedyQuant(Length(c) + 1, min, max, SimpleCount(c))] + (c + [Match]))
  {
    hide *;
    b.EmitOp(OP_MATCH);
    ghost var tail := Assemble(c) + [OP_MATCH];
    b.Insert(start, 17);
    ghost var gap := Gap(base + tail, b.bytes, base, tail, 17);
    AssembledLength(c);
    PatchQuant(b, start, |b.bytes| - start - 17, min, max, len, base, gap, tail);
    SimpleBytes(c, min, max);
  }

  lemma SimpleBytes(c: seq<Instr>, min: int, max: int)
    ensures var q := SimpleGreedyQuant(Length(c) + 1, min, max, SimpleCount(c));
      Assemble([q] + (c + [Match])) == Encode(q) + (Assemble(c) + [OP_MATCH])
  {
    hide *;
    PlainBytes();
    TailBytes(c, Match);
    HeadBytes(SimpleGreedyQuant(Length(c) + 1, min, max, SimpleCount(c)), c + [Match]);
  }

  /** The reset of the captures an atom that may not run at all has to start with. */
  method InsertReset(b: Buffer, start: nat, first: nat, last: nat, ghost base: seq<byte>, ghost tail: seq<byte>)
    requires b.bytes == base + tail && start == |base|
    modifies b
    ensures b.bytes == base + Encode(SaveReset(first, last)) + tail
  {
    hide *;
    b.Insert(start, 3);
    ghost var gap := Gap(base + tail, b.bytes, base, tail, 3);
    FillThree(gap, OP_SAVE_RESET, first % 256, last % 256);
    ResetBytes(first, last);
    gap := Fill(b, start, [OP_SAVE_RESET], base, gap, tail, 0);
    gap := Fill(b, start + 1, [first % 256], base, gap, tail, 1);
    gap := Fill(b, start + 2, [last % 256], base, gap, tail, 2);
  }

  lemma BranchBytes(greedy: bool, d: int)
    ensures Encode(Branch(greedy, d)) == [SplitOp(greedy)] + U32(d)
  {
    JumpBytes(d);
    hide U32;
    hide Encode;
  }

  /** `REOP_split_goto_first + greedy`. */
  function SplitOp(greedy: bool): byte {
    if greedy then OP_SPLIT_NEXT_FIRST else OP_SPLIT_GOTO_FIRST
  }

  // ----- the optional part, behind the mandatory part -----

  /** The bytes of the optional part, case by case. */
  lemma LoopBytes(g: seq<Instr>, greedy: bool)
    ensures Assemble(LoopCode(g, greedy, true))
         == ([SplitOp(greedy)] + U32(Length(g) + 5)) + Assemble(g) + ([OP_GOTO] + U32(-(Length(g) + 10)))
    ensures Assemble(LoopCode(g, greedy, false))
         == ([SplitOp(greedy)] + U32(Length(g) + 5)) + Assemble(g) + ([OP_LOOP] + U32(-(Length(g) + 10))) + [OP_DROP]
  {
    var d: int := -(Length(g) + 10);
    LoopParts(g, greedy);
    hide *;
    BranchBytes(greedy, Length(g) + 5);
    JumpBytes(d);
    PlainBytes();
    FrameBytes(Branch(greedy, Length(g) + 5), g, Goto(d));
    FrameBytes(Branch(greedy, Length(g) + 5), g, Instr.Loop(d));
    TailBytes([Branch(greedy, Length(g) + 5)] + g + [Instr.Loop(d)], Drop);
  }

  lemma OnceBytes(g: seq<Instr>, greedy: bool)
    ensures Assemble([Branch(greedy, Length(g))] + g) == ([SplitOp(greedy)] + U32(Length(g))) + Assemble(g)
  {
    hide *;
    BranchBytes(greedy, Length(g));
    HeadBytes(Branch(greedy, Length(g)), g);
  }

  lemma CountedBytes(k: int, g: seq<Instr>, greedy: bool)
    ensures Assemble([PushI32(k)] + LoopCode(g, greedy, false))
         == ([OP_PUSH_I32] + U32(k)) + (([SplitOp(greedy)] + U32(Length(g) + 5)) + Assemble(g)
            + ([OP_LOOP] + U32(-(Length(g) + 10))) + [OP_DROP])
  {
    hide *;
    LoopBytes(g, greedy);
    JumpBytes(k);
    HeadBytes(PushI32(k), LoopCode(g, greedy, false));
  }

  lemma FillSix(gap: seq<byte>, op: byte, v: int, x: byte)
    requires |gap| == 6
    ensures Over(Over(Over(gap, 0, [op]), 1, U32(v)), 5, [x]) == ([op] + U32(v)) + [x]
  {
    hide U32;
    assert Over(gap, 0, [op]) == [op] + gap[1..];
    assert Over([op] + gap[1..], 1, U32(v)) == [op] + U32(v) + gap[5..];
  }

  lemma RegroupGuard(a: seq<byte>, x: seq<byte>, p: seq<byte>, atom: seq<byte>, q: seq<byte>)
    ensures a + (x + p) + atom + q == a + x + (p + atom + q)
  {
  }

  lemma GuardCases(check: bool, atom: seq<byte>)
    ensures GuardBytes(check, atom) == if check then [OP_PUSH_CHAR_POS] + atom + [OP_CHECK_ADVANCE] else atom
  {
  }

  /** The branch, and the check around the atom if it needs one, inserted before the atom. */
  method InsertBranch(b: Buffer, pos: nat, greedy: bool, d: int, check: bool, ghost base: seq<byte>,
                      ghost atom: seq<byte>)
    requires b.bytes == base + atom && pos == |base|
    modifies b
    ensures b.bytes == base + ([SplitOp(greedy)] + U32(d)) + GuardBytes(check, atom)
  {
    hide *;
    GuardCases(check, atom);
    b.Insert(pos, 5 + if check then 1 else 0);
    ghost var gap := Gap(base + atom, b.bytes, base, atom, 5 + if check then 1 else 0);
    if check {
      FillSix(gap, SplitOp(greedy), d, OP_PUSH_CHAR_POS);
      RegroupGuard(base, [SplitOp(greedy)] + U32(d), [OP_PUSH_CHAR_POS], atom, [OP_CHECK_ADVANCE]);
    } else {
      FillByteWord(gap, SplitOp(greedy), d);
    }
    gap := Fill(b, pos, [SplitOp(greedy)], base, gap, atom, 0);
    gap := Fill(b, pos + 1, U32(d), base, gap, atom, 1);
    if check {
      gap := Fill(b, pos + 1 + 4, [OP_PUSH_CHAR_POS], base, gap, atom, 5);
      b.EmitOp(OP_CHECK_ADVANCE);
    }
  }

  lemma FillTen(gap: seq<byte>, p: byte, k: int, op: byte, v: int)
    requires |gap| == 10
    ensures Over(Over(Over(Over(gap, 0, [p]), 1, U32(k)), 5, [op]), 6, U32(v)) == ([p] + U32(k)) + ([op] + U32(v))
  {
    hide U32;
    assert Over(gap, 0, [p]) == [p] + gap[1..];
    assert Over([p] + gap[1..], 1, U32(k)) == [p] + U32(k) + gap[5..];
    assert Over([p] + U32(k) + gap[5..], 5, [op]) == [p] + U32(k) + [op] + gap[6..];
  }

  lemma FillEleven(gap: seq<byte>, p: byte, k: int, op: byte, v: int, x: byte)
    requires |gap| == 11
    ensures Over(Over(Over(Over(Over(gap, 0, [p]), 1, U32(k)), 5, [op]), 6, U32(v)), 10, [x])
         == (([p] + U32(k)) + ([op] + U32(v))) + [x]
  {
    hide U32;
    assert Over(gap, 0, [p]) == [p] + gap[1..];
    assert Over([p] + gap[1..], 1, U32(k)) == [p] + U32(k) + gap[5..];
    assert Over([p] + U32(k) + gap[5..], 5, [op]) == [p] + U32(k) + [op] + gap[6..];
    assert Over([p] + U32(k) + [op] + gap[6..], 6, U32(v)) == [p] + U32(k) + [op] + U32(v) + gap[10..];
  }

  /** A counter pushed before such a branch. */
  method InsertCountedBranch(b: Buffer, start: nat, count: int, greedy: bool, d: int, check: bool,
                             ghost base: seq<byte>, ghost atom: seq<byte>)
    requires b.bytes == base + atom && start == |base|
    modifies b
    ensures b.bytes == base + (([OP_PUSH_I32] + U32(count)) + ([SplitOp(greedy)] + U32(d))) + GuardBytes(check, atom)
  {
    hide *;
    GuardCases(check, atom);
    b.Insert(start, 10 + if check then 1 else 0);
    ghost var gap := Gap(base + atom, b.bytes, base, atom, 10 + if check then 1 else 0);
    if check {
      FillEleven(gap, OP_PUSH_I32, count, SplitOp(greedy), d, OP_PUSH_CHAR_POS);
      RegroupGuard(base, ([OP_PUSH_I32] + U32(count)) + ([SplitOp(greedy)] + U32(d)), [OP_PUSH_CHAR_POS], atom,
                   [OP_CHECK_ADVANCE]);
    } else {
      FillTen(gap, OP_PUSH_I32, count, SplitOp(greedy), d);
    }
    var pos := start;
    gap := Fill(b, pos, [OP_PUSH_I32], base, gap, atom, 0);
    pos := pos + 1;
    gap := Fill(b, pos, U32(count), base, gap, atom, 1);
    pos := pos + 4;
    gap := Fill(b, pos, [SplitOp(greedy)], base, gap, atom, 5);
    pos := pos + 1;
    gap := Fill(b, pos, U32(d), base, gap, atom, 6);
    pos := pos + 4;
    if check {
      gap := Fill(b, pos, [OP_PUSH_CHAR_POS], base, gap, atom, 10);
      b.EmitOp(OP_CHECK_ADVANCE);
    }
  }

  /** `x?` and `x*`. */
  method QuantifyOnceOrMany(b: Buffer, start: nat, hasGoto: bool, greedy: bool, check: bool, ghost base: seq<byte>,
                            ghost c: seq<Instr>)
    requires b.bytes == base + Assemble(c) && start == |base|
    modifies b
    ensures var g := Guarded(check, c);
      b.bytes == base + Assemble(if hasGoto then LoopCode(g, greedy, true) else [Branch(greedy, Length(g))] + g)
  {
    ghost var g := Guarded(check, c);
    hide *;
    GuardedBytes(check, c);
    AssembledLength(c);
    AssembledLength(g);
    var len := |b.bytes| - start;
    var d := len + (if hasGoto then 5 else 0) + (if check then 2 else 0);
    InsertBranch(b, start, greedy, d, check, base, Assemble(c));
    if hasGoto {
      LoopBytes(g, greedy);
      b.EmitGoto(OP_GOTO, start);
    } else {
      OnceBytes(g, greedy);
    }
  }

  method QuantifyCounted(b: Buffer, start: nat, max: int, greedy: bool, check: bool, ghost base: seq<byte>,
                         ghost c: seq<Instr>)
    requires b.bytes == base + Assemble(c) && start == |base|
    modifies b
    ensures b.bytes == base + Assemble([PushI32(max)] + LoopCode(Guarded(check, c), greedy, false))
  {
    ghost var g := Guarded(check, c);
    hide *;
    GuardedBytes(check, c);
    AssembledLength(c);
    AssembledLength(g);
    var len := |b.bytes| - start;
    var d := len + 5 + (if check then 2 else 0);
    CountedBytes(max, g, greedy);
    InsertCountedBranch(b, start, max, greedy, d, check, base, Assemble(c));
    b.EmitGoto(OP_LOOP, start + 5);
    b.EmitOp(OP_DROP);
  }

  /** The branches of `quant_min == 0`, once the captures are taken care of. */
  method QuantifyFromZero(b: Buffer, start: nat, max: int, greedy: bool, check: bool, ghost base: seq<byte>,
                          ghost c: seq<Instr>)
    requires b.bytes == base + Assemble(c) && start == |base| && 0 <= max <= INFINITE
    modifies b
    ensures b.bytes == base + Assemble(OptionalCode(Guarded(check, c), 0, max, greedy))
  {
    ghost var g := Guarded(check, c);
    InfiniteSize();
    hide *;
    OptionalIs(g, 0, max, greedy);
    if max == 0 {
      AssembleNone();
      b.Truncate(start);
    } else if max == 1 || max == INFINITE {
      QuantifyOnceOrMany(b, start, max == INFINITE, greedy, check, base, c);
    } else {
      QuantifyCounted(b, start, max, greedy, check, base, c);
    }
  }

  lemma AssembleNone()
    ensures Assemble([]) == []
  {
  }

  /** The branch of `quant_min` above 1: the atom runs in a counted loop. */
  method QuantifyMandatory(b: Buffer, start: nat, min: int, ghost base: seq<byte>, ghost c: seq<Instr>)
    requires b.bytes == base + Assemble(c) && start == |base| && 2 <= min
    modifies b
    ensures b.bytes == base
      + (([OP_PUSH_I32] + U32(min)) + Assemble(c) + ([OP_LOOP] + U32(-(Length(c) + 5))) + [OP_DROP])
  {
    hide *;
    AssembledLength(c);
    InsertJump(b, start, OP_PUSH_I32, min, base, Assemble(c));
    b.EmitGoto(OP_LOOP, start + 5);
    b.EmitOp(OP_DROP);
  }

  lemma MandatoryBytes(c: seq<Instr>, groups: nat, cap: nat, min: int)
    requires 2 <= min
    ensures Assemble(MandatoryCode(c, groups, cap, min))
         == ([OP_PUSH_I32] + U32(min)) + Assemble(c) + ([OP_LOOP] + U32(-(Length(c) + 5))) + [OP_DROP]
  {
    hide *;
    MandatoryMany(c, groups, cap, min);
    CountingBytes(min, c, -(Length(c) + 5));
  }

  lemma CountingBytes(k: int, c: seq<Instr>, d: int)
    ensures Assemble([PushI32(k)] + c + [Instr.Loop(d)] + [Drop])
         == ([OP_PUSH_I32] + U32(k)) + Assemble(c) + ([OP_LOOP] + U32(d)) + [OP_DROP]
  {
    hide *;
    FrameBytes(PushI32(k), c, Instr.Loop(d));
    TailBytes([PushI32(k)] + c + [Instr.Loop(d)], Drop);
    JumpBytes(k);
    JumpBytes(d);
    PlainBytes();
  }

  lemma MandatoryMany(c: seq<Instr>, groups: nat, cap: nat, min: int)
    requires 2 <= min
    ensures MandatoryCode(c, groups, cap, min) == [PushI32(min)] + c + [Instr.Loop(-(Length(c) + 5))] + [Drop]
  {
    hide Length;
  }

  /** `dbuf_put_self` of the atom, with the check around the copy. */
  method CopyAtom(b: Buffer, pos: nat, len: nat, check: bool, ghost before: seq<byte>, ghost atom: seq<byte>,
                  ghost after: seq<byte>)
    requires b.bytes == before + atom + after && pos == |before| && len == |atom|
    modifies b
    ensures b.bytes == before + atom + after + GuardBytes(check, atom)
  {
    hide *;
    GuardCases(check, atom);
    ghost var w := if check then after + [OP_PUSH_CHAR_POS] else after;
    if check {
      b.EmitOp(OP_PUSH_CHAR_POS);
    }
    MiddleSlice(before, atom, w);
    Assoc3(before + atom, after, [OP_PUSH_CHAR_POS]);
    b.PutSelf(pos, len);
    if check {
      b.EmitOp(OP_CHECK_ADVANCE);
      Assoc4(before + atom + after, [OP_PUSH_CHAR_POS], atom, [OP_CHECK_ADVANCE]);
    }
  }

  lemma MiddleSlice(a: seq<byte>, b: seq<byte>, c: seq<byte>)
    ensures (a + b + c)[|a|..|a| + |b|] == b
  {
  }

  /** The branches of `quant_min` at least 1 that add optional iterations behind the mandatory ones;
      the copied atom stands between `before` and `after`. */
  method QuantifyMore(b: Buffer, pos: nat, len: nat, min: int, max: int, greedy: bool, check: bool,
                      ghost before: seq<byte>, ghost c: seq<Instr>, ghost after: seq<byte>)
    requires b.bytes == before + Assemble(c) + after && pos == |before| && len == Length(c)
    requires 1 <= min <= max <= INFINITE
    modifies b
    ensures b.bytes == before + Assemble(c) + after + Assemble(OptionalCode(Guarded(check, c), min, max, greedy))
  {
    ghost var g := Guarded(check, c);
    hide *;
    OptionalIs(g, min, max, greedy);
    GuardedBytes(check, c);
    AssembledLength(c);
    AssembledLength(g);
    var d := len + 5 + (if check then 2 else 0);
    if max == INFINITE {
      QuantifyUnbounded(b, pos, len, greedy, check, before, c, after);
    } else if max > min {
      QuantifyBounded(b, pos, len, max - min, greedy, check, before, c, after);
    } else {
      AssembleNone();
    }
  }

  method QuantifyUnbounded(b: Buffer, pos: nat, len: nat, greedy: bool, check: bool,
                           ghost before: seq<byte>, ghost c: seq<Instr>, ghost after: seq<byte>)
    requires b.bytes == before + Assemble(c) + after && pos == |before| && len == Length(c)
    modifies b
    ensures b.bytes == before + Assemble(c) + after + Assemble(LoopCode(Guarded(check, c), greedy, true))
  {
    ghost var g := Guarded(check, c);
    hide *;
    GuardedBytes(check, c);
    AssembledLength(c);
    AssembledLength(g);
    LoopBytes(g, greedy);
    ghost var s := b.bytes;
    var d := len + 5 + (if check then 2 else 0);
    var at := |b.bytes|;
    var _ := b.EmitOpU32(SplitOp(greedy), d);
    Assoc3(before + Assemble(c), after, [SplitOp(greedy)] + U32(d));
    CopyAtom(b, pos, len, check, before, Assemble(c), after + ([SplitOp(greedy)] + U32(d)));
    b.EmitGoto(OP_GOTO, at);
    Assoc4(s, [SplitOp(greedy)] + U32(d), Assemble(g), [OP_GOTO] + U32(-(Length(g) + 10)));
  }

  method QuantifyBounded(b: Buffer, pos: nat, len: nat, k: int, greedy: bool, check: bool,
                         ghost before: seq<byte>, ghost c: seq<Instr>, ghost after: seq<byte>)
    requires b.bytes == before + Assemble(c) + after && pos == |before| && len == Length(c)
    modifies b
    ensures b.bytes
         == before + Assemble(c) + after + Assemble([PushI32(k)] + LoopCode(Guarded(check, c), greedy, false))
  {
    ghost var g := Guarded(check, c);
    hide *;
    GuardedBytes(check, c);
    AssembledLength(c);
    AssembledLength(g);
    CountedBytes(k, g, greedy);
    ghost var s := b.bytes;
    var d := len + 5 + (if check then 2 else 0);
    var _ := b.EmitOpU32(OP_PUSH_I32, k);
    var at := |b.bytes|;
    var _ := b.EmitOpU32(SplitOp(greedy), d);
    ghost var p, q := [OP_PUSH_I32] + U32(k), [SplitOp(greedy)] + U32(d);
    Assoc3(before + Assemble(c), after, p);
    Assoc3(before + Assemble(c), after + p, q);
    CopyAtom(b, pos, len, check, before, Assemble(c), after + p + q);
    b.EmitGoto(OP_LOOP, at);
    b.EmitOp(OP_DROP);
    Regroup6(s, p, q, Assemble(g), [OP_LOOP] + U32(-(Length(g) + 10)), [OP_DROP]);
  }

  lemma Regroup6(s: seq<byte>, p: seq<byte>, a: seq<byte>, b: seq<byte>, c: seq<byte>, d: seq<byte>)
    ensures s + p + a + b + c + d == s + (p + (a + b + c + d))
  {
  }

  // ----- the whole quantifier -----

  lemma RepeatIs(c: seq<Instr>, groups: nat, cap: nat, min: int, max: int, greedy: bool)
    ensures RepeatCode(c, groups, cap, min, max, greedy)
         == if greedy && max > 0 && SimpleCount(c) > 0
            then [SimpleGreedyQuant(Length(c) + 1, min, max, SimpleCount(c))] + (c + [Match])
            else if min == 1 && max == INFINITE && !MayStay(c) then c + [PlusBranch(greedy, -(Length(c) + 5))]
            else MandatoryCode(c, groups, cap, min) + OptionalCode(Guarded(MayStay(c), c), min, max, greedy)
  {
    hide Length;
    hide SimpleCount;
    hide MayStay;
    hide MandatoryCode;
    hide OptionalCode;
    hide Guarded;
    hide PlusBranch;
  }

  lemma MandatoryFew(c: seq<Instr>, groups: nat, cap: nat)
    ensures MandatoryCode(c, groups, cap, 1) == c
    ensures MandatoryCode(c, groups, cap, 0) == if groups > 0 then [SaveReset(cap, cap + groups - 1)] else []
  {
  }

  /** `REOP_split_next_first - greedy`. */
  lemma PlusBytes(c: seq<Instr>, greedy: bool)
    ensures Assemble(c + [PlusBranch(greedy, -(Length(c) + 5))])
         == Assemble(c) + ([if greedy then OP_SPLIT_GOTO_FIRST else OP_SPLIT_NEXT_FIRST] + U32(-(Length(c) + 5)))
  {
    hide *;
    var d: int := -(Length(c) + 5);
    PlusBranchCases(greedy, d);
    JumpBytes(d);
    TailBytes(c, PlusBranch(greedy, d));
  }

  lemma PlusBranchCases(greedy: bool, d: int)
    ensures PlusBranch(greedy, d) == if greedy then SplitGotoFirst(d) else SplitNextFirst(d)
  {
  }

  /** The quantifier behind an atom: `start` is where the atom begins and `cap` the capture count
      there. On return the buffer holds the code of the repeat in the atom's place. */
  method Quantify(b: Buffer, start: nat, cap: nat, captureCount: nat, min: int, max: int, greedy: bool,
                  ghost base: seq<byte>, ghost c: seq<Instr>)
    requires b.bytes == base + Assemble(c) && start == |base| && AllFit(c)
    requires cap <= captureCount && 0 <= min <= max <= INFINITE
    modifies b
    ensures b.bytes == base + Assemble(RepeatCode(c, captureCount - cap, cap, min, max, greedy))
  {
    hide *;
    RepeatIs(c, captureCount - cap, cap, min, max, greedy);
    assert b.bytes[start..] == Assemble(c);
    if greedy && max > 0 {
      var len := IsSimpleQuantifier(b.bytes[start..], c);
      if len > 0 {
        QuantifySimple(b, start, min, max, len, base, c);
        return;
      }
    }
    var addZeroAdvanceCheck := NeedCheckAdvance(b.bytes[start..], c);
    if min == 0 {
      QuantifyZero(b, start, cap, captureCount, max, greedy, addZeroAdvanceCheck, base, c);
    } else if min == 1 && max == INFINITE && !addZeroAdvanceCheck {
      PlusBytes(c, greedy);
      AssembledLength(c);
      b.EmitGoto(if greedy then OP_SPLIT_GOTO_FIRST else OP_SPLIT_NEXT_FIRST, start);
    } else {
      QuantifyPositive(b, start, cap, captureCount - cap, min, max, greedy, addZeroAdvanceCheck, base, c);
    }
  }

  method QuantifyZero(b: Buffer, start: nat, cap: nat, captureCount: nat, max: int, greedy: bool, check: bool,
                      ghost base: seq<byte>, ghost c: seq<Instr>)
    requires b.bytes == base + Assemble(c) && start == |base| && cap <= captureCount && 0 <= max <= INFINITE
    modifies b
    ensures b.bytes
         == base + Assemble(MandatoryCode(c, captureCount - cap, cap, 0)
                            + OptionalCode(Guarded(check, c), 0, max, greedy))
  {
    hide *;
    ghost var o := OptionalCode(Guarded(check, c), 0, max, greedy);
    MandatoryFew(c, captureCount - cap, cap);
    AssembleConcat(MandatoryCode(c, captureCount - cap, cap, 0), o);
    if cap != captureCount {
      ghost var r := SaveReset(cap, captureCount - 1);
      AssembleOne(r);
      ResetSize(cap, captureCount - 1);
      InsertReset(b, start, cap, captureCount - 1, base, Assemble(c));
      QuantifyFromZero(b, start + 3, max, greedy, check, base + Encode(r), c);
    } else {
      AssembleNone();
      QuantifyFromZero(b, start, max, greedy, check, base, c);
    }
  }

  lemma ResetSize(f: int, l: int)
    ensures |Encode(SaveReset(f, l))| == 3
  {
  }

  method QuantifyPositive(b: Buffer, start: nat, ghost cap: nat, ghost groups: nat, min: int, max: int, greedy: bool,
                          check: bool, ghost base: seq<byte>, ghost c: seq<Instr>)
    requires b.bytes == base + Assemble(c) && start == |base| && 1 <= min <= max <= INFINITE
    modifies b
    ensures b.bytes
         == base + Assemble(MandatoryCode(c, groups, cap, min) + OptionalCode(Guarded(check, c), min, max, greedy))
  {
    hide *;
    var len := |b.bytes| - start;
    AssembledLength(c);
    ghost var o := OptionalCode(Guarded(check, c), min, max, greedy);
    AssembleConcat(MandatoryCode(c, groups, cap, min), o);
    if min == 1 {
      MandatoryFew(c, groups, cap);
      QuantifyMore(b, start, len, min, max, greedy, check, base, c, []);
    } else {
      MandatoryBytes(c, groups, cap, min);
      QuantifyMandatory(b, start, min, base, c);
      ghost var p, q := [OP_PUSH_I32] + U32(min), ([OP_LOOP] + U32(-(Length(c) + 5))) + [OP_DROP];
      MandatoryShape(base, p, Assemble(c), [OP_LOOP] + U32(-(Length(c) + 5)), [OP_DROP], Assemble(o));
      QuantifyMore(b, start + 5, len, min, max, greedy, check, base + p, c, q);
    }
  }

  lemma MandatoryShape(a: seq<byte>, p: seq<byte>, atom: seq<byte>, q: seq<byte>, r: seq<byte>, o: seq<byte>)
    ensures a + (p + atom + q + r) == (a + p) + atom + (q + r)
    ensures (a + p) + atom + (q + r) + o == a + ((p + atom + q + r) + o)
  {
  }
}
