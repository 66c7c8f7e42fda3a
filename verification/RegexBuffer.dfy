/** The growing byte-code buffer of the compiler: appending, inserting a gap in the middle and
    patching bytes in place, and what those do to a laid-out program. */
module RegexBuffer {
  import opened Bytes
  import opened Instructions
  import opened RegexCode
  import opened RegexScan
  import PointSets

  /** `after` is `before` with `code` laid out behind it. */
  ghost predicate Adds(before: seq<byte>, after: seq<byte>, code: seq<Instr>) {
    after == before + Assemble(code)
  }

  lemma AddsThen(a: seq<byte>, b: seq<byte>, c: seq<byte>, x: seq<Instr>, y: seq<Instr>)
    requires Adds(a, b, x) && Adds(b, c, y)
    ensures Adds(a, c, x + y)
  {
    hide Assemble;
    AssembleConcat(x, y);
  }

  /** `s` with the bytes from `pos` on replaced by `piece`. */
  function Over(s: seq<byte>, pos: nat, piece: seq<byte>): (r: seq<byte>)
    requires pos + |piece| <= |s|
    ensures |r| == |s|
  {
    s[..pos] + piece + s[pos + |piece|..]
  }

  lemma OverMiddle(a: seq<byte>, gap: seq<byte>, b: seq<byte>, k: nat, piece: seq<byte>)
    requires k + |piece| <= |gap|
    ensures Over(a + gap + b, |a| + k, piece) == a + Over(gap, k, piece) + b
  {
  }

  lemma FillByteWord(gap: seq<byte>, op: byte, v: int)
    requires |gap| == 5
    ensures Over(Over(gap, 0, [op]), 1, U32(v)) == [op] + U32(v)
  {
    hide U32;
  }

  lemma FillThree(gap: seq<byte>, a: byte, b: byte, c: byte)
    requires |gap| == 3
    ensures Over(Over(Over(gap, 0, [a]), 1, [b]), 2, [c]) == [a] + [b, c]
  {
  }

  lemma FillWords(gap: seq<byte>, op: byte, d: int, a: int, b: int, n: int)
    requires |gap| == 17
    ensures Over(Over(Over(Over(Over(gap, 0, [op]), 1, U32(d)), 5, U32(a)), 9, U32(b)), 13, U32(n))
         == [op] + (U32(d) + U32(a) + U32(b) + U32(n))
  {
    hide U32;
    assert Over(gap, 0, [op]) == [op] + gap[1..];
    assert Over([op] + gap[1..], 1, U32(d)) == [op] + U32(d) + gap[5..];
    assert Over([op] + U32(d) + gap[5..], 5, U32(a)) == [op] + U32(d) + U32(a) + gap[9..];
    assert Over([op] + U32(d) + U32(a) + gap[9..], 9, U32(b)) == [op] + U32(d) + U32(a) + U32(b) + gap[13..];
  }

  /** The bytes of the instructions the compiler writes piecemeal. */
  lemma JumpBytes(d: int)
    ensures Encode(Goto(d)) == [OP_GOTO] + U32(d)
    ensures Encode(SplitGotoFirst(d)) == [OP_SPLIT_GOTO_FIRST] + U32(d)
    ensures Encode(SplitNextFirst(d)) == [OP_SPLIT_NEXT_FIRST] + U32(d)
    ensures Encode(Loop(d)) == [OP_LOOP] + U32(d)
    ensures Encode(PushI32(d)) == [OP_PUSH_I32] + U32(d)
    ensures Encode(Lookahead(d)) == [OP_LOOKAHEAD] + U32(d)
    ensures Encode(NegativeLookahead(d)) == [OP_NEGATIVE_LOOKAHEAD] + U32(d)
    ensures Encode(Char32(d)) == [OP_CHAR32] + U32(d)
  {
    hide U32;
  }

  lemma PlainBytes()
    ensures Encode(Match) == [OP_MATCH] && Encode(Drop) == [OP_DROP] && Encode(Prev) == [OP_PREV]
    ensures Encode(PushCharPos) == [OP_PUSH_CHAR_POS] && Encode(CheckAdvance) == [OP_CHECK_ADVANCE]
    ensures Encode(Dot) == [OP_DOT] && Encode(Any) == [OP_ANY]
    ensures Encode(LineStart) == [OP_LINE_START] && Encode(LineEnd) == [OP_LINE_END]
    ensures Encode(WordBoundary) == [OP_WORD_BOUNDARY] && Encode(NotWordBoundary) == [OP_NOT_WORD_BOUNDARY]
  {
    hide *;
    ControlBytes();
    TestBytes();
  }

  lemma ControlBytes()
    ensures Encode(Match) == [OP_MATCH] && Encode(Drop) == [OP_DROP] && Encode(Prev) == [OP_PREV]
    ensures Encode(PushCharPos) == [OP_PUSH_CHAR_POS] && Encode(CheckAdvance) == [OP_CHECK_ADVANCE]
  {
  }

  lemma TestBytes()
    ensures Encode(Dot) == [OP_DOT] && Encode(Any) == [OP_ANY]
    ensures Encode(LineStart) == [OP_LINE_START] && Encode(LineEnd) == [OP_LINE_END]
    ensures Encode(WordBoundary) == [OP_WORD_BOUNDARY] && Encode(NotWordBoundary) == [OP_NOT_WORD_BOUNDARY]
  {
  }

  lemma SaveBytes(g: int)
    ensures Encode(SaveStart(g)) == [OP_SAVE_START] + [g % 256] && Encode(SaveEnd(g)) == [OP_SAVE_END] + [g % 256]
    ensures Encode(BackReference(g)) == [OP_BACK_REFERENCE] + [g % 256]
    ensures Encode(BackwardBackReference(g)) == [OP_BACKWARD_BACK_REFERENCE] + [g % 256]
    ensures Encode(Char8(g)) == [OP_CHAR8] + [g % 256]
  {
  }

  lemma ResetBytes(f: int, l: int)
    ensures Encode(SaveReset(f, l)) == [OP_SAVE_RESET] + [f % 256, l % 256]
  {
  }

  lemma QuantBytes(d: int, a: int, b: int, n: int)
    ensures Encode(SimpleGreedyQuant(d, a, b, n)) == [OP_SIMPLE_GREEDY_QUANT] + (U32(d) + U32(a) + U32(b) + U32(n))
  {
    hide U32;
  }

  lemma TableBytes(i: Instr)
    ensures i.Range? ==> Encode(i) == [OP_RANGE] + (U16(|i.bounds| / 2) + Words16(i.bounds))
    ensures i.Range32? ==> Encode(i) == [OP_RANGE32] + (U16(|i.bounds| / 2) + Words32(i.bounds))
  {
    hide *;
    EncodeParts(i);
    TableParts(i);
  }

  lemma TableParts(i: Instr)
    ensures i.Range? ==> Operands(i) == U16(|i.bounds| / 2) + Words16(i.bounds) && Opcode(i) == OP_RANGE
    ensures i.Range32? ==> Operands(i) == U16(|i.bounds| / 2) + Words32(i.bounds) && Opcode(i) == OP_RANGE32
  {
    hide U16;
    hide U32;
    hide Words16;
    hide Words32;
  }

  lemma Char16Bytes(v: int)
    ensures Encode(Char16(v)) == [OP_CHAR16] + U16(v)
  {
    hide U16;
  }

  lemma WordsNone()
    ensures Words16([]) == [] && Words32([]) == []
  {
  }

  lemma BoundsAre(p: seq<int>)
    ensures forall i :: 0 <= i < |p| && i % 2 == 0 ==> Bounds16(p)[i] == p[i] && Bounds32(p)[i] == p[i]
    ensures forall i :: 0 <= i < |p| && i % 2 == 1 ==>
      Bounds16(p)[i] == (if p[i] == PointSets.UINT32_MAX then 0xFFFF else p[i] - 1) && Bounds32(p)[i] == p[i] - 1
  {
  }

  lemma {:induction false} Words16Snoc(b: seq<int>, x: int)
    ensures Words16(b + [x]) == Words16(b) + U16(x)
  {
    hide U16;
    if b == [] {
      assert [] + [x] == [x];
    } else {
      assert (b + [x])[1..] == b[1..] + [x];
      Words16Snoc(b[1..], x);
    }
  }

  lemma {:induction false} Words32Snoc(b: seq<int>, x: int)
    ensures Words32(b + [x]) == Words32(b) + U32(x)
  {
    hide U32;
    if b == [] {
      assert [] + [x] == [x];
    } else {
      assert (b + [x])[1..] == b[1..] + [x];
      Words32Snoc(b[1..], x);
    }
  }

  lemma Words16More(b: seq<int>, i: nat)
    requires i + 1 < |b|
    ensures Words16(b[..i + 2]) == Words16(b[..i]) + U16(b[i]) + U16(b[i + 1])
  {
    hide *;
    assert b[..i + 1] == b[..i] + [b[i]] && b[..i + 2] == b[..i + 1] + [b[i + 1]];
    Words16Snoc(b[..i], b[i]);
    Words16Snoc(b[..i + 1], b[i + 1]);
  }

  lemma Words32More(b: seq<int>, i: nat)
    requires i + 1 < |b|
    ensures Words32(b[..i + 2]) == Words32(b[..i]) + U32(b[i]) + U32(b[i + 1])
  {
    hide *;
    assert b[..i + 1] == b[..i] + [b[i]] && b[..i + 2] == b[..i + 1] + [b[i + 1]];
    Words32Snoc(b[..i], b[i]);
    Words32Snoc(b[..i + 1], b[i + 1]);
  }

  class Buffer {
    var bytes: seq<byte>

    constructor ()
      ensures bytes == []
    {
      bytes := [];
    }

    method PutByte(v: int)
      modifies this
      ensures bytes == old(bytes) + [v % 256]
    {
      bytes := bytes + [v % 256];
    }

    method PutU16(v: int)
      modifies this
      ensures bytes == old(bytes) + U16(v)
    {
      bytes := bytes + U16(v);
    }

    method PutU32(v: int)
      modifies this
      ensures bytes == old(bytes) + U32(v)
    {
      bytes := bytes + U32(v);
    }

    /** `dbuf_insert`: the tail moves up by `len`; the gap keeps what was there and is to be filled. */
    method Insert(pos: nat, len: nat)
      requires pos <= |bytes|
      modifies this
      ensures |bytes| == |old(bytes)| + len && bytes[..pos] == old(bytes)[..pos]
      ensures bytes[pos + len..] == old(bytes)[pos..]
    {
      var tail := bytes[pos..];
      bytes := bytes + seq(len, i => 0);
      bytes := bytes[..pos + len] + tail;
    }

    /** Storing bytes at a position. */
    method Store(pos: nat, piece: seq<byte>)
      requires pos + |piece| <= |bytes|
      modifies this
      ensures bytes == Over(old(bytes), pos, piece)
    {
      bytes := bytes[..pos] + piece + bytes[pos + |piece|..];
    }

    /** `dbuf_put_self`. */
    method PutSelf(pos: nat, len: nat)
      requires pos + len <= |bytes|
      modifies this
      ensures bytes == old(bytes) + old(bytes)[pos..pos + len]
    {
      bytes := bytes + bytes[pos..pos + len];
    }

    /** The reversal step of `re_parse_alternative`: everything from `start` moves up by the size of the last
        term, then the term, by now beyond the end, is copied in front. */
    method Rotate(start: nat, termStart: nat)
      requires start <= termStart <= |bytes|
      modifies this
      ensures bytes == old(bytes)[..start] + old(bytes)[termStart..] + old(bytes)[start..termStart]
    {
      var end := |bytes|;
      var termSize := end - termStart;
      var moved := bytes[start..end];
      var claimed := bytes + seq(termSize, i => 0);
      claimed := claimed[..start + termSize] + moved;
      var term := claimed[end..end + termSize];
      assert term == moved[termStart - start..] == old(bytes)[termStart..];
      bytes := claimed[..start] + term + claimed[start + termSize..end];
    }

    method Truncate(size: nat)
      requires size <= |bytes|
      modifies this
      ensures bytes == old(bytes)[..size]
    {
      bytes := bytes[..size];
    }

    /** `re_emit_op`. */
    method EmitOp(op: byte)
      modifies this
      ensures bytes == old(bytes) + [op]
    {
      PutByte(op);
    }

    method EmitOpU8(op: byte, v: int)
      modifies this
      ensures bytes == old(bytes) + ([op] + [v % 256])
    {
      PutByte(op);
      PutByte(v);
    }

    method EmitOpU16(op: byte, v: int)
      modifies this
      ensures bytes == old(bytes) + ([op] + U16(v))
    {
      PutByte(op);
      PutU16(v);
    }

    /** The result is where the operand stands, for patching. */
    method EmitOpU32(op: byte, v: int) returns (pos: nat)
      modifies this
      ensures bytes == old(bytes) + ([op] + U32(v)) && pos == |old(bytes)| + 1
    {
      PutByte(op);
      pos := |bytes|;
      PutU32(v);
    }

    /** `re_emit_goto`: the offset to the target `val` counts from the end of the operand. */
    method EmitGoto(op: byte, val: nat)
      modifies this
      ensures bytes == old(bytes) + ([op] + U32(val - (|old(bytes)| + 5)))
    {
      PutByte(op);
      var pos := |bytes|;
      PutU32(val - (pos + 4));
    }

    /** The loop of `re_emit_range` for the 16-bit form. */
    method PutRanges16(points: seq<int>)
      requires |points| % 2 == 0
      modifies this
      ensures bytes == old(bytes) + Words16(Bounds16(points))
    {
      hide *;
      ghost var b := Bounds16(points);
      BoundsAre(points);
      WordsNone();
      var i: nat := 0;
      ghost var written: seq<byte> := [];
      while i < |points|
        invariant i <= |points| && i % 2 == 0 && |b| == |points|
        invariant bytes == old(bytes) + written && written == Words16(b[..i])
      {
        var high := points[i + 1] - 1;
        if high == PointSets.UINT32_MAX - 1 {
          high := 0xFFFF;
        }
        Words16More(b, i);
        PutU16(points[i]);
        PutU16(high);
        Assoc4(old(bytes), written, U16(points[i]), U16(high));
        written := written + U16(points[i]) + U16(high);
        i := i + 2;
      }
      assert b[..i] == b;
    }

    method PutRanges32(points: seq<int>)
      requires |points| % 2 == 0
      modifies this
      ensures bytes == old(bytes) + Words32(Bounds32(points))
    {
      hide *;
      ghost var b := Bounds32(points);
      BoundsAre(points);
      WordsNone();
      var i: nat := 0;
      ghost var written: seq<byte> := [];
      while i < |points|
        invariant i <= |points| && i % 2 == 0 && |b| == |points|
        invariant bytes == old(bytes) + written && written == Words32(b[..i])
      {
        Words32More(b, i);
        PutU32(points[i]);
        PutU32(points[i + 1] - 1);
        Assoc4(old(bytes), written, U32(points[i]), U32(points[i + 1] - 1));
        written := written + U32(points[i]) + U32(points[i + 1] - 1);
        i := i + 2;
      }
      assert b[..i] == b;
    }
  }
}
