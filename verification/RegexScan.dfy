/** The linear scans over byte code: `re_need_check_advance`, `re_is_simple_quantifier` and
    `lre_compute_stack_size` walk the bytes from instruction to instruction and compute the
    functions of the instruction list that the correctness proofs rest on. */
module RegexScan {
  import opened Bytes
  import opened Instructions
  import opened RegexCode
  import opened RegexLayout
  import opened RegexStack

  const STACK_SIZE_MAX: int := 255

  const OP_CHAR8: byte := 1
  const OP_CHAR16: byte := 2
  const OP_CHAR32: byte := 3
  const OP_DOT: byte := 4
  const OP_ANY: byte := 5
  const OP_LINE_START: byte := 6
  const OP_LINE_END: byte := 7
  const OP_GOTO: byte := 8
  const OP_SPLIT_GOTO_FIRST: byte := 9
  const OP_SPLIT_NEXT_FIRST: byte := 10
  const OP_MATCH: byte := 11
  const OP_SAVE_START: byte := 12
  const OP_SAVE_END: byte := 13
  const OP_SAVE_RESET: byte := 14
  const OP_LOOP: byte := 15
  const OP_PUSH_I32: byte := 16
  const OP_DROP: byte := 17
  const OP_WORD_BOUNDARY: byte := 18
  const OP_NOT_WORD_BOUNDARY: byte := 19
  const OP_BACK_REFERENCE: byte := 20
  const OP_BACKWARD_BACK_REFERENCE: byte := 21
  const OP_RANGE: byte := 22
  const OP_RANGE32: byte := 23
  const OP_LOOKAHEAD: byte := 24
  const OP_NEGATIVE_LOOKAHEAD: byte := 25
  const OP_PUSH_CHAR_POS: byte := 26
  const OP_CHECK_ADVANCE: byte := 27
  const OP_PREV: byte := 28
  const OP_SIMPLE_GREEDY_QUANT: byte := 29

  predicate IsCharOp(op: byte) {
    op in {OP_CHAR8, OP_CHAR16, OP_CHAR32, OP_DOT, OP_ANY, OP_RANGE, OP_RANGE32}
  }

  predicate IsAssertionOp(op: byte) {
    op in {OP_LINE_START, OP_LINE_END, OP_WORD_BOUNDARY, OP_NOT_WORD_BOUNDARY}
  }

  predicate IsNeutralOp(op: byte) {
    op in {OP_PUSH_I32, OP_PUSH_CHAR_POS, OP_DROP, OP_PREV, OP_SAVE_START, OP_SAVE_END, OP_SAVE_RESET,
           OP_BACK_REFERENCE, OP_BACKWARD_BACK_REFERENCE}
  }

  /** What an opcode byte tells the scans about its instruction. */
  lemma OpcodeClass(i: Instr)
    ensures IsCharOp(Opcode(i)) <==> IsCharInstr(i)
    ensures IsAssertionOp(Opcode(i)) <==> IsAssertion(i)
    ensures IsCharOp(Opcode(i)) || IsAssertionOp(Opcode(i)) || IsNeutralOp(Opcode(i)) <==> IsPredictable(i)
  {
  }

  lemma OpcodeDelta(i: Instr)
    ensures Opcode(i) == OP_PUSH_I32 || Opcode(i) == OP_PUSH_CHAR_POS <==> Delta(i) == 1
    ensures Opcode(i) == OP_DROP || Opcode(i) == OP_CHECK_ADVANCE <==> Delta(i) == -1
    ensures -1 <= Delta(i) <= 1
  {
  }

  /** The scan stands before the instructions `rest`. */
  ghost predicate Scanning(buf: seq<byte>, pos: nat, rest: seq<Instr>) {
    pos <= |buf| && buf[pos..] == Assemble(rest) && AllFit(rest)
  }

  lemma ScanStart(buf: seq<byte>, c: seq<Instr>)
    requires buf == Assemble(c) && AllFit(c)
    ensures Scanning(buf, 0, c) && STACK_SIZE_MAX == 255
  {
    assert buf[0..] == buf;
  }

  lemma ScanDone(buf: seq<byte>, pos: nat, rest: seq<Instr>)
    requires Scanning(buf, pos, rest)
    ensures rest == [] <==> pos == |buf|
    ensures pos <= |buf|
  {
  }

  /** The size of the instruction at `pos`, as the scans read it off the bytes. */
  method InstructionSize(buf: seq<byte>, pos: nat, ghost rest: seq<Instr>) returns (len: nat)
    requires Scanning(buf, pos, rest) && pos < |buf|
    ensures rest != [] && buf[pos] == Opcode(rest[0]) && len >= 1 && pos + len <= |buf|
    ensures Scanning(buf, pos + len, rest[1..])
  {
    ScanHere(buf, pos, rest);
    hide *;
    var op := buf[pos];
    len := FixedSize(op);
    if op == OP_RANGE {
      var val := GetU16(buf, pos + 1);
      len := len + val * 4;
    } else if op == OP_RANGE32 {
      var val := GetU16(buf, pos + 1);
      len := len + val * 8;
    }
  }

  lemma ScanHere(buf: seq<byte>, pos: nat, rest: seq<Instr>)
    requires Scanning(buf, pos, rest) && pos < |buf|
    ensures rest != [] && buf[pos] == Opcode(rest[0])
    ensures pos + Size(rest[0]) <= |buf| && Scanning(buf, pos + Size(rest[0]), rest[1..]) && Size(rest[0]) >= 1
    ensures buf[pos] == OP_RANGE || buf[pos] == OP_RANGE32 ==> pos + 3 <= |buf|
    ensures Size(rest[0]) == FixedSize(buf[pos]) + (if buf[pos] == OP_RANGE then GetU16(buf, pos + 1) * 4
                                                    else if buf[pos] == OP_RANGE32 then GetU16(buf, pos + 1) * 8 else 0)
  {
    var i := ScanSplit(buf, pos, rest);
    hide *;
    EncodeParts(i);
    SizeIs(i);
    AtFits(buf, pos, Encode(i));
    AtByte(buf, pos, Encode(i), 0);
    if i.Range? || i.Range32? {
      TableCount(buf, pos, i);
    } else {
      PlainSize(i);
    }
  }

  lemma ScanSplit(buf: seq<byte>, pos: nat, rest: seq<Instr>) returns (i: Instr)
    requires Scanning(buf, pos, rest) && pos < |buf|
    ensures rest != [] && i == rest[0] && At(buf, pos, Encode(i)) && (i.Range? || i.Range32? ==> Encodable(i))
    ensures pos + Size(i) <= |buf| && Scanning(buf, pos + Size(i), rest[1..])
  {
    i := rest[0];
    assert i in rest && OperandsFit(i);
    assert forall k :: k in rest[1..] ==> k in rest;
    hide Encodable;
    hide OperandsFit;
    hide Encode;
    hide Size;
    var tail := Assemble(rest[1..]);
    assert buf[pos..] == Encode(i) + tail && |Encode(i)| == Size(i);
    assert buf[pos..pos + Size(i)] == buf[pos..][..Size(i)];
    assert buf[pos + Size(i)..] == buf[pos..][Size(i)..];
  }

  lemma TableCount(buf: seq<byte>, pos: nat, i: Instr)
    requires (i.Range? || i.Range32?) && Encodable(i) && At(buf, pos, Encode(i))
    ensures pos + 3 <= |buf| && Opcode(i) == (if i.Range? then OP_RANGE else OP_RANGE32)
    ensures Size(i) == FixedSize(Opcode(i)) + GetU16(buf, pos + 1) * (if i.Range? then 4 else 8)
  {
    AtFits(buf, pos, Encode(i));
    hide *;
    EncodeParts(i);
    AtSplit(buf, pos, [Opcode(i)], Operands(i));
    TableShape(i);
    TableOperands(buf, pos + 1, i);
    SizeIs(i);
    TableFixed();
  }

  lemma SizeIs(i: Instr)
    ensures Size(i) == 1 + |Operands(i)|
  {
  }

  lemma TableFixed()
    ensures FixedSize(OP_RANGE) == 3 && FixedSize(OP_RANGE32) == 3
  {
  }

  lemma PlainSize(i: Instr)
    requires !i.Range? && !i.Range32?
    ensures Size(i) == FixedSize(Opcode(i)) && Opcode(i) != OP_RANGE && Opcode(i) != OP_RANGE32
  {
  }

  /** `re_need_check_advance`: whether the code may leave the position where it is. */
  method NeedCheckAdvance(buf: seq<byte>, ghost c: seq<Instr>) returns (ret: bool)
    requires buf == Assemble(c) && AllFit(c)
    ensures ret == MayStay(c)
  {
    hide *;
    ScanStart(buf, c);
    ret := true;
    var pos: nat := 0;
    ghost var rest := c;
    AdvanceStart(c);
    while pos < |buf|
      invariant Scanning(buf, pos, rest)
      invariant MayStay(c) == !(AllPredictable(rest) && (!ret || HasChar(rest)))
      decreases |buf| - pos
    {
      var len := InstructionSize(buf, pos, rest);
      AdvanceTurn(rest);
      var opcode := buf[pos];
      if IsCharOp(opcode) {
        ret := false;
      } else if !IsAssertionOp(opcode) && !IsNeutralOp(opcode) {
        return true;
      }
      pos := pos + len;
      rest := rest[1..];
    }
    ScanDone(buf, pos, rest);
    ScanNone();
  }

  lemma AdvanceStart(c: seq<Instr>)
    ensures MayStay(c) == !(AllPredictable(c) && HasChar(c))
  {
  }

  lemma AdvanceTurn(c: seq<Instr>)
    requires c != []
    ensures var op := Opcode(c[0]);
      && AllPredictable(c) == ((IsCharOp(op) || IsAssertionOp(op) || IsNeutralOp(op)) && AllPredictable(c[1..]))
      && HasChar(c) == (IsCharOp(op) || HasChar(c[1..]))
  {
    OpcodeClass(c[0]);
    hide Opcode;
    hide IsCharOp;
    hide IsAssertionOp;
    hide IsNeutralOp;
    hide IsCharInstr;
    hide IsPredictable;
  }

  lemma ScanNone()
    ensures AllPredictable([]) && !HasChar([]) && SimpleCount([]) == 0 && Peak([]) == 0
  {
  }

  /** `re_is_simple_quantifier`: the number of characters the code matches, or -1. */
  method IsSimpleQuantifier(buf: seq<byte>, ghost c: seq<Instr>) returns (count: int)
    requires buf == Assemble(c) && AllFit(c)
    ensures count == SimpleCount(c)
  {
    hide *;
    ScanStart(buf, c);
    count := 0;
    var pos: nat := 0;
    ghost var rest := c;
    while pos < |buf|
      invariant Scanning(buf, pos, rest) && count >= 0
      invariant SimpleCount(c) == if SimpleCount(rest) < 0 then -1 else count + SimpleCount(rest)
      decreases |buf| - pos
    {
      var len := InstructionSize(buf, pos, rest);
      SimpleTurn(rest);
      var opcode := buf[pos];
      if IsCharOp(opcode) {
        count := count + 1;
      } else if !IsAssertionOp(opcode) {
        return -1;
      }
      pos := pos + len;
      rest := rest[1..];
    }
    ScanDone(buf, pos, rest);
    ScanNone();
  }

  lemma SimpleTurn(c: seq<Instr>)
    requires c != []
    ensures var op, rest := Opcode(c[0]), SimpleCount(c[1..]);
      SimpleCount(c) == if rest < 0 then -1
                        else if IsCharOp(op) then rest + 1
                        else if IsAssertionOp(op) then rest else -1
  {
    OpcodeClass(c[0]);
    hide Opcode;
    hide IsCharOp;
    hide IsAssertionOp;
    hide IsCharInstr;
    hide IsAssertion;
  }

  /** `lre_compute_stack_size`: the greatest stack height of the linear scan, or -1 above the limit. Its
      assertion that no drop meets an empty stack holds. */
  method ComputeStackSize(buf: seq<byte>, ghost c: seq<Instr>) returns (stackSizeMax: int)
    requires buf == Assemble(c) && AllFit(c) && Balanced(c, 0)
    ensures stackSizeMax == if Peak(c) > STACK_SIZE_MAX then -1 else Peak(c)
  {
    hide *;
    ScanStart(buf, c);
    stackSizeMax := 0;
    var stackSize: int := 0;
    var pos: nat := 0;
    ghost var rest := c;
    while pos < |buf|
      invariant Scanning(buf, pos, rest) && 0 <= stackSize <= stackSizeMax <= STACK_SIZE_MAX
      invariant Balanced(rest, stackSize)
      invariant Peak(c) == if stackSizeMax < stackSize + Peak(rest) then stackSize + Peak(rest) else stackSizeMax
      decreases |buf| - pos
    {
      var len := InstructionSize(buf, pos, rest);
      StackTurn(rest, stackSize);
      var opcode := buf[pos];
      if opcode == OP_PUSH_I32 || opcode == OP_PUSH_CHAR_POS {
        stackSize := stackSize + 1;
        if stackSize > stackSizeMax {
          if stackSize > STACK_SIZE_MAX {
            return -1;
          }
          stackSizeMax := stackSize;
        }
      } else if opcode == OP_DROP || opcode == OP_CHECK_ADVANCE {
        assert stackSize > 0;
        stackSize := stackSize - 1;
      }
      pos := pos + len;
      rest := rest[1..];
    }
    ScanDone(buf, pos, rest);
    ScanNone();
  }

  lemma StackTurn(c: seq<Instr>, h: int)
    requires c != [] && Balanced(c, h)
    ensures var op, rest := Opcode(c[0]), Peak(c[1..]);
      var d := if op == OP_PUSH_I32 || op == OP_PUSH_CHAR_POS then 1 else if op == OP_DROP || op
        == OP_CHECK_ADVANCE then -1 else 0;
      h + d >= 0 && Balanced(c[1..], h + d) && Peak(c) == if d + rest < 0 then 0 else d + rest
  {
    OpcodeDelta(c[0]);
    hide Opcode;
    hide Delta;
  }

  /** With `base` entries below, the height never goes under zero. */
  predicate Balanced(c: seq<Instr>, base: int) {
    base >= 0 && (c != [] ==> Balanced(c[1..], base + Delta(c[0])))
  }

  lemma {:induction false} SupportedBalanced(c: seq<Instr>, base: int)
    requires Supported(c, base)
    ensures Balanced(c, base)
  {
    if c != [] {
      SupportedBalanced(c[1..], base + Delta(c[0]));
    }
  }
}
