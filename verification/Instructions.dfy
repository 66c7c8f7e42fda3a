/** The instructions of the regular expression byte code and their encoding
    (libregexp-opcode.h). Jump offsets count from the end of the jump instruction's operand,
    except that of SimpleGreedyQuant, which counts from the end of its sixteen operand bytes. */
module Instructions {
  import opened Bytes

  datatype Instr =
    | Char8(c: int)
    | Char16(c: int)
    | Char32(c: int)
    | Dot
    | Any
    | LineStart
    | LineEnd
    | Goto(offset: int)
    | SplitGotoFirst(offset: int)
    | SplitNextFirst(offset: int)
    | Match
    | SaveStart(group: int)
    | SaveEnd(group: int)
    | SaveReset(first: int, last: int)
    | Loop(offset: int)
    | PushI32(value: int)
    | Drop
    | WordBoundary
    | NotWordBoundary
    | BackReference(group: int)
    | BackwardBackReference(group: int)
    | Range(bounds: seq<int>)
    | Range32(bounds: seq<int>)
    | Lookahead(offset: int)
    | NegativeLookahead(offset: int)
    | PushCharPos
    | CheckAdvance
    | Prev
    | SimpleGreedyQuant(offset: int, min: int, max: int, count: int)

  predicate IsOffset(v: int) { -TWO_TO_THE_31 <= v < TWO_TO_THE_31 }

  predicate IsU32(v: int) { 0 <= v < TWO_TO_THE_32 }

  /** The operands fit their fields. */
  predicate Encodable(i: Instr) {
    match i
    case Char8(c) => 0 <= c < 256
    case Char16(c) => 0 <= c < 65536
    case Char32(c) => IsU32(c)
    case Goto(d) => IsOffset(d)
    case SplitGotoFirst(d) => IsOffset(d)
    case SplitNextFirst(d) => IsOffset(d)
    case SaveStart(g) => 0 <= g < 256
    case SaveEnd(g) => 0 <= g < 256
    case SaveReset(f, l) => 0 <= f < 256 && 0 <= l < 256
    case Loop(d) => IsOffset(d)
    case PushI32(v) => IsU32(v)
    case BackReference(g) => 0 <= g < 256
    case BackwardBackReference(g) => 0 <= g < 256
    case Range(b) => 2 <= |b| && |b| % 2 == 0 && |b| / 2 < 65536 && forall k :: 0 <= k < |b| ==> 0 <= b[k] < 65536
    case Range32(b) => 2 <= |b| && |b| % 2 == 0 && |b| / 2 < 65536 && forall k :: 0 <= k < |b| ==> IsU32(b[k])
    case Lookahead(d) => IsOffset(d)
    case NegativeLookahead(d) => IsOffset(d)
    case SimpleGreedyQuant(d, a, b, n) => IsOffset(d) && IsU32(a) && IsU32(b) && IsU32(n)
    case _ => true
  }

  function Words16(b: seq<int>): (s: seq<byte>)
    ensures |s| == 2 * |b|
  {
    if b == [] then [] else U16(b[0]) + Words16(b[1..])
  }

  function Words32(b: seq<int>): (s: seq<byte>)
    ensures |s| == 4 * |b|
  {
    if b == [] then [] else U32(b[0]) + Words32(b[1..])
  }

  function ReadWords16(bc: seq<byte>, p: nat, n: nat): (b: seq<int>)
    requires p + 2 * n <= |bc|
    ensures |b| == n
    decreases n
  {
    if n == 0 then [] else [GetU16(bc, p)] + ReadWords16(bc, p + 2, n - 1)
  }

  function ReadWords32(bc: seq<byte>, p: nat, n: nat): (b: seq<int>)
    requires p + 4 * n <= |bc|
    ensures |b| == n
    decreases n
  {
    if n == 0 then [] else [GetU32(bc, p)] + ReadWords32(bc, p + 4, n - 1)
  }

  /** The first byte of an instruction: its place in libregexp-opcode.h. */
  function Opcode(i: Instr): (b: byte)
    ensures 1 <= b <= 29
  {
    match i
    case Char8(_) => 1
    case Char16(_) => 2
    case Char32(_) => 3
    case Dot => 4
    case Any => 5
    case LineStart => 6
    case LineEnd => 7
    case Goto(_) => 8
    case SplitGotoFirst(_) => 9
    case SplitNextFirst(_) => 10
    case Match => 11
    case SaveStart(_) => 12
    case SaveEnd(_) => 13
    case SaveReset(_, _) => 14
    case Loop(_) => 15
    case PushI32(_) => 16
    case Drop => 17
    case WordBoundary => 18
    case NotWordBoundary => 19
    case BackReference(_) => 20
    case BackwardBackReference(_) => 21
    case Range(_) => 22
    case Range32(_) => 23
    case Lookahead(_) => 24
    case NegativeLookahead(_) => 25
    case PushCharPos => 26
    case CheckAdvance => 27
    case Prev => 28
    case SimpleGreedyQuant(_, _, _, _) => 29
  }

  function Operands(i: Instr): (s: seq<byte>) {
    match i
    case Char8(c) => [c % 256]
    case Char16(c) => U16(c)
    case Char32(c) => U32(c)
    case Goto(d) => U32(d)
    case SplitGotoFirst(d) => U32(d)
    case SplitNextFirst(d) => U32(d)
    case SaveStart(g) => [g % 256]
    case SaveEnd(g) => [g % 256]
    case SaveReset(f, l) => [f % 256, l % 256]
    case Loop(d) => U32(d)
    case PushI32(v) => U32(v)
    case BackReference(g) => [g % 256]
    case BackwardBackReference(g) => [g % 256]
    case Range(b) => U16(|b| / 2) + Words16(b)
    case Range32(b) => U16(|b| / 2) + Words32(b)
    case Lookahead(d) => U32(d)
    case NegativeLookahead(d) => U32(d)
    case SimpleGreedyQuant(d, a, b, n) => U32(d) + U32(a) + U32(b) + U32(n)
    case _ => []
  }

  function Encode(i: Instr): (s: seq<byte>)
    ensures |s| == 1 + |Operands(i)| && s[0] == Opcode(i)
  {
    [Opcode(i)] + Operands(i)
  }

  function Size(i: Instr): (n: nat)
    ensures n == |Encode(i)|
  {
    1 + |Operands(i)|
  }

  /** The fixed part of an instruction's size, `reopcode_info[opcode].size`. */
  function FixedSize(op: byte): nat {
    match op as int
    case 1 => 2
    case 2 => 3
    case 3 => 5
    case 8 => 5
    case 9 => 5
    case 10 => 5
    case 12 => 2
    case 13 => 2
    case 14 => 3
    case 15 => 5
    case 16 => 5
    case 20 => 2
    case 21 => 2
    case 22 => 3
    case 23 => 3
    case 24 => 5
    case 25 => 5
    case 29 => 17
    case _ => 1
  }

  datatype Fetched = Fetched(i: Instr) | Invalid

  /** What the interpreter reads at `pc`; Invalid for an unknown opcode or operands beyond the end. */
  function Decode(bc: seq<byte>, pc: nat): (r: Fetched) {
    if |bc| <= pc || |bc| < pc + FixedSize(bc[pc]) then Invalid else
    match bc[pc] as int
    case 1 => Fetched(Char8(bc[pc + 1]))
    case 2 => Fetched(Char16(GetU16(bc, pc + 1)))
    case 3 => Fetched(Char32(GetU32(bc, pc + 1)))
    case 4 => Fetched(Dot)
    case 5 => Fetched(Any)
    case 6 => Fetched(LineStart)
    case 7 => Fetched(LineEnd)
    case 8 => Fetched(Goto(AsInt(GetU32(bc, pc + 1))))
    case 9 => Fetched(SplitGotoFirst(AsInt(GetU32(bc, pc + 1))))
    case 10 => Fetched(SplitNextFirst(AsInt(GetU32(bc, pc + 1))))
    case 11 => Fetched(Match)
    case 12 => Fetched(SaveStart(bc[pc + 1]))
    case 13 => Fetched(SaveEnd(bc[pc + 1]))
    case 14 => Fetched(SaveReset(bc[pc + 1], bc[pc + 2]))
    case 15 => Fetched(Loop(AsInt(GetU32(bc, pc + 1))))
    case 16 => Fetched(PushI32(GetU32(bc, pc + 1)))
    case 17 => Fetched(Drop)
    case 18 => Fetched(WordBoundary)
    case 19 => Fetched(NotWordBoundary)
    case 20 => Fetched(BackReference(bc[pc + 1]))
    case 21 => Fetched(BackwardBackReference(bc[pc + 1]))
    case 22 =>
      var n := GetU16(bc, pc + 1);
      if n == 0 || |bc| < pc + 3 + 4 * n then Invalid else Fetched(Range(ReadWords16(bc, pc + 3, 2 * n)))
    case 23 =>
      var n := GetU16(bc, pc + 1);
      if n == 0 || |bc| < pc + 3 + 8 * n then Invalid else Fetched(Range32(ReadWords32(bc, pc + 3, 2 * n)))
    case 24 => Fetched(Lookahead(AsInt(GetU32(bc, pc + 1))))
    case 25 => Fetched(NegativeLookahead(AsInt(GetU32(bc, pc + 1))))
    case 26 => Fetched(PushCharPos)
    case 27 => Fetched(CheckAdvance)
    case 28 => Fetched(Prev)
    case 29 => Fetched(SimpleGreedyQuant(AsInt(GetU32(bc, pc + 1)), GetU32(bc, pc + 5), GetU32(bc, pc + 9),
                                         GetU32(bc, pc + 13)))
    case _ => Invalid
  }

  lemma {:induction false} Words16RoundTrip(bc: seq<byte>, p: nat, b: seq<int>)
    requires At(bc, p, Words16(b)) && forall k :: 0 <= k < |b| ==> 0 <= b[k] < 65536
    ensures ReadWords16(bc, p, |b|) == b
    decreases |b|
  {
    if b != [] {
      AtSplit(bc, p, U16(b[0]), Words16(b[1..]));
      U16RoundTrip(bc, p, b[0]);
      Words16RoundTrip(bc, p + 2, b[1..]);
    }
  }

  lemma {:induction false} Words32RoundTrip(bc: seq<byte>, p: nat, b: seq<int>)
    requires At(bc, p, Words32(b)) && forall k :: 0 <= k < |b| ==> IsU32(b[k])
    ensures ReadWords32(bc, p, |b|) == b
    decreases |b|
  {
    if b != [] {
      AtSplit(bc, p, U32(b[0]), Words32(b[1..]));
      U32RoundTrip(bc, p, b[0]);
      Words32RoundTrip(bc, p + 4, b[1..]);
    }
  }

  lemma DecodeBytes(bc: seq<byte>, pc: nat, i: Instr)
    requires At(bc, pc, Encode(i)) && Encodable(i)
    requires |Operands(i)| == 1 || i.SaveReset?
    ensures Decode(bc, pc) == Fetched(i)
  {
    AtByte(bc, pc, Encode(i), 0);
    AtByte(bc, pc, Encode(i), 1);
    if i.SaveReset? {
      AtByte(bc, pc, Encode(i), 2);
    }
  }

  lemma DecodeJump(bc: seq<byte>, pc: nat, i: Instr)
    requires At(bc, pc, Encode(i)) && Encodable(i)
    requires i.Goto? || i.SplitGotoFirst? || i.SplitNextFirst? || i.Loop? || i.Lookahead? || i.NegativeLookahead?
    ensures Decode(bc, pc) == Fetched(i)
  {
    AtByte(bc, pc, Encode(i), 0);
    AtSplit(bc, pc, [Opcode(i)], Operands(i));
    OffsetRoundTrip(bc, pc + 1, i.offset);
  }

  lemma DecodeWord(bc: seq<byte>, pc: nat, i: Instr)
    requires At(bc, pc, Encode(i)) && Encodable(i)
    requires i.Char16? || i.Char32? || i.PushI32?
    ensures Decode(bc, pc) == Fetched(i)
  {
    AtFits(bc, pc, Encode(i));
    AtByte(bc, pc, Encode(i), 0);
    AtSplit(bc, pc, [Opcode(i)], Operands(i));
    match i
    case Char16(c) => U16RoundTrip(bc, pc + 1, c);
    case Char32(c) => U32RoundTrip(bc, pc + 1, c);
    case PushI32(v) => U32RoundTrip(bc, pc + 1, v);
    hide At;
    hide GetU16;
    hide GetU32;
  }

  lemma DecodeTable(bc: seq<byte>, pc: nat, i: Instr)
    requires At(bc, pc, Encode(i)) && Encodable(i)
    requires i.Range? || i.Range32?
    ensures Decode(bc, pc) == Fetched(i)
  {
    AtFits(bc, pc, Encode(i));
    hide *;
    EncodeParts(i);
    AtByte(bc, pc, Encode(i), 0);
    AtSplit(bc, pc, [Opcode(i)], Operands(i));
    TableShape(i);
    TableOperands(bc, pc + 1, i);
    DecodeAsTable(bc, pc);
  }

  lemma EncodeParts(i: Instr)
    ensures Encode(i) == [Opcode(i)] + Operands(i)
  {
  }

  lemma TableShape(i: Instr)
    requires (i.Range? || i.Range32?) && Encodable(i)
    ensures Opcode(i) == if i.Range? then 22 else 23
    ensures |i.bounds| > 0 && |i.bounds| == 2 * (|i.bounds| / 2)
  {
  }

  /** The interpreter's view of a range instruction. */
  lemma DecodeAsTable(bc: seq<byte>, pc: nat)
    requires pc + 3 <= |bc| && bc[pc] in {22, 23}
    requires var n := GetU16(bc, pc + 1); 0 < n && pc + 3 + (if bc[pc] == 22 then 4 else 8) * n <= |bc|
    ensures var n := GetU16(bc, pc + 1);
      Decode(bc, pc) == if bc[pc] == 22 then Fetched(Range(ReadWords16(bc, pc + 3, 2 * n)))
                        else Fetched(Range32(ReadWords32(bc, pc + 3, 2 * n)))
  {
    hide GetU16;
    hide GetU32;
    hide ReadWords16;
    hide ReadWords32;
    assert FixedSize(bc[pc]) == 3;
  }

  lemma DecodeAsQuant(bc: seq<byte>, pc: nat)
    requires pc + 17 <= |bc| && bc[pc] == 29
    ensures Decode(bc, pc)
         == Fetched(SimpleGreedyQuant(AsInt(GetU32(bc, pc + 1)), GetU32(bc, pc + 5), GetU32(bc, pc + 9),
                                      GetU32(bc, pc + 13)))
  {
    hide GetU16;
    hide GetU32;
    hide AsInt;
    assert FixedSize(bc[pc]) == 17;
  }

  /** The table behind a range instruction reads back. */
  lemma TableOperands(bc: seq<byte>, p: nat, i: Instr)
    requires (i.Range? || i.Range32?) && Encodable(i) && At(bc, p, Operands(i))
    ensures p + |Operands(i)| <= |bc| && |Operands(i)| == 2 + (if i.Range? then 2 else 4) * |i.bounds|
    ensures GetU16(bc, p) == |i.bounds| / 2
    ensures i.Range? ==> ReadWords16(bc, p + 2, |i.bounds|) == i.bounds
    ensures i.Range32? ==> ReadWords32(bc, p + 2, |i.bounds|) == i.bounds
  {
    var b := i.bounds;
    AtFits(bc, p, Operands(i));
    hide At;
    hide GetU16;
    hide ReadWords16;
    hide ReadWords32;
    hide Words16;
    hide Words32;
    hide U16;
    AtSplit(bc, p, U16(|b| / 2), if i.Range? then Words16(b) else Words32(b));
    U16RoundTrip(bc, p, |b| / 2);
    if i.Range? {
      Words16RoundTrip(bc, p + 2, b);
    } else {
      Words32RoundTrip(bc, p + 2, b);
    }
  }

  lemma DecodeQuant(bc: seq<byte>, pc: nat, i: Instr)
    requires At(bc, pc, Encode(i)) && Encodable(i)
    requires i.SimpleGreedyQuant?
    ensures Decode(bc, pc) == Fetched(i)
    ensures pc + 17 <= |bc| && AsInt(GetU32(bc, pc + 1)) == i.offset && GetU32(bc, pc + 13) == i.count
  {
    hide Decode;
    AtByte(bc, pc, Encode(i), 0);
    AtSplit(bc, pc, [Opcode(i)], Operands(i));
    QuantOperands(bc, pc + 1, i.offset, i.min, i.max, i.count);
    DecodeAsQuant(bc, pc);
  }

  lemma QuantOperands(bc: seq<byte>, p: nat, d: int, a: int, b: int, n: int)
    requires At(bc, p, U32(d) + U32(a) + U32(b) + U32(n)) && IsOffset(d) && IsU32(a) && IsU32(b) && IsU32(n)
    ensures p + 16 <= |bc| && AsInt(GetU32(bc, p)) == d
    ensures GetU32(bc, p + 4) == a && GetU32(bc, p + 8) == b && GetU32(bc, p + 12) == n
  {
    AtFits(bc, p, U32(d) + U32(a) + U32(b) + U32(n));
    hide At;
    hide GetU32;
    hide AsInt;
    hide U32;
    AtSplit(bc, p, U32(d) + U32(a) + U32(b), U32(n));
    AtSplit(bc, p, U32(d) + U32(a), U32(b));
    AtSplit(bc, p, U32(d), U32(a));
    OffsetRoundTrip(bc, p, d);
    U32RoundTrip(bc, p + 4, a);
    U32RoundTrip(bc, p + 8, b);
    U32RoundTrip(bc, p + 12, n);
  }

  lemma AtFits(bc: seq<byte>, p: nat, s: seq<byte>)
    requires At(bc, p, s)
    ensures p + |s| <= |bc|
  {
  }

  /** The interpreter reads back exactly the instruction the compiler wrote. */
  lemma DecodeEncode(bc: seq<byte>, pc: nat, i: Instr)
    requires At(bc, pc, Encode(i)) && Encodable(i)
    ensures Decode(bc, pc) == Fetched(i)
  {
    if |Operands(i)| == 1 || i.SaveReset? {
      DecodeBytes(bc, pc, i);
    } else if i.Goto? || i.SplitGotoFirst? || i.SplitNextFirst? || i.Loop? || i.Lookahead? || i.NegativeLookahead? {
      DecodeJump(bc, pc, i);
    } else if i.Char16? || i.Char32? || i.PushI32? {
      DecodeWord(bc, pc, i);
    } else if i.Range? || i.Range32? {
      DecodeTable(bc, pc, i);
    } else if i.SimpleGreedyQuant? {
      DecodeQuant(bc, pc, i);
    } else {
      AtByte(bc, pc, Encode(i), 0);
    }
  }

  /** A program as a list of instructions, laid out in bytes. */
  function Assemble(code: seq<Instr>): (s: seq<byte>) {
    if code == [] then [] else Encode(code[0]) + Assemble(code[1..])
  }

  function Length(code: seq<Instr>): (n: nat)
    ensures n == |Assemble(code)|
  {
    if code == [] then 0 else Size(code[0]) + Length(code[1..])
  }

  lemma {:induction false} AssembleConcat(a: seq<Instr>, b: seq<Instr>)
    ensures Assemble(a + b) == Assemble(a) + Assemble(b)
  {
    if a == [] {
      assert a + b == b;
    } else {
      assert (a + b)[1..] == a[1..] + b;
      AssembleConcat(a[1..], b);
    }
  }

  lemma AssembleOne(i: Instr)
    ensures Assemble([i]) == Encode(i)
  {
    assert [i][1..] == [];
  }

  /** The assembled code of `code` stands at `pc`. */
  ghost predicate CodeAt(bc: seq<byte>, pc: nat, code: seq<Instr>) {
    At(bc, pc, Assemble(code))
  }

  lemma CodeAtOne(bc: seq<byte>, pc: nat, i: Instr)
    requires CodeAt(bc, pc, [i])
    ensures At(bc, pc, Encode(i))
  {
    AssembleOne(i);
  }

  lemma CodeSplit(bc: seq<byte>, pc: nat, a: seq<Instr>, b: seq<Instr>)
    requires CodeAt(bc, pc, a + b)
    ensures CodeAt(bc, pc, a) && CodeAt(bc, pc + Length(a), b)
  {
    hide At;
    hide Assemble;
    AssembleConcat(a, b);
    AtSplit(bc, pc, Assemble(a), Assemble(b));
  }

  lemma LengthOne(i: Instr)
    ensures Length([i]) == Size(i)
  {
    assert [i][1..] == [];
  }

  lemma Sizes(i: Instr)
    ensures i.Goto? || i.SplitGotoFirst? || i.SplitNextFirst? || i.Lookahead? || i.NegativeLookahead?
            ==> Length([i]) == 5
    ensures i.PushI32? || i.Loop? ==> Length([i]) == 5
    ensures i.Match? || i.Prev? || i.Drop? || i.PushCharPos? || i.CheckAdvance? ==> Length([i]) == 1
    ensures i.SaveStart? || i.SaveEnd? ==> Length([i]) == 2
    ensures i.SaveReset? ==> Length([i]) == 3
    ensures i.SimpleGreedyQuant? ==> Length([i]) == 17
  {
    LengthOne(i);
  }

  lemma CodeFits(bc: seq<byte>, pc: nat, code: seq<Instr>)
    requires CodeAt(bc, pc, code)
    ensures pc + Length(code) <= |bc|
  {
  }

  lemma CodeSplit3(bc: seq<byte>, pc: nat, a: seq<Instr>, b: seq<Instr>, c: seq<Instr>)
    requires CodeAt(bc, pc, a + b + c)
    ensures CodeAt(bc, pc, a) && CodeAt(bc, pc + Length(a), b) && CodeAt(bc, pc + Length(a) + Length(b), c)
    ensures Length(a + b + c) == Length(a) + Length(b) + Length(c)
    ensures pc + Length(a + b + c) <= |bc|
  {
    hide *;
    CodeFits(bc, pc, a + b + c);
    CodeSplit(bc, pc, a + b, c);
    CodeSplit(bc, pc, a, b);
    LengthConcat(a + b, c);
    LengthConcat(a, b);
  }

  lemma CodeSplit4(bc: seq<byte>, pc: nat, a: seq<Instr>, b: seq<Instr>, c: seq<Instr>, d: seq<Instr>)
    requires CodeAt(bc, pc, a + b + c + d)
    ensures CodeAt(bc, pc, a) && CodeAt(bc, pc + Length(a), b) && CodeAt(bc, pc + Length(a) + Length(b), c)
    ensures CodeAt(bc, pc + Length(a) + Length(b) + Length(c), d)
    ensures Length(a + b + c + d) == Length(a) + Length(b) + Length(c) + Length(d)
    ensures pc + Length(a + b + c + d) <= |bc|
  {
    hide *;
    CodeFits(bc, pc, a + b + c + d);
    CodeSplit(bc, pc, a + b + c, d);
    CodeSplit3(bc, pc, a, b, c);
    LengthConcat(a + b + c, d);
  }

  lemma LengthConcat(a: seq<Instr>, b: seq<Instr>)
    ensures Length(a + b) == Length(a) + Length(b)
  {
    AssembleConcat(a, b);
  }

  lemma CodeFetch(bc: seq<byte>, pc: nat, i: Instr)
    requires CodeAt(bc, pc, [i]) && Encodable(i)
    ensures Decode(bc, pc) == Fetched(i) && pc + Size(i) <= |bc| && Length([i]) == Size(i)
  {
    AssembleOne(i);
    DecodeEncode(bc, pc, i);
  }
}
