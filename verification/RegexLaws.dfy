/** Laws between different patterns: what an assertion means is tied to what character tests mean around the
    position, so that the notions the reference semantics and the machine share are said a second time. */
module RegexLaws {
  import opened Instructions
  import opened MatchInput
  import opened PointSets
  import opened RegexSemantics
  import opened RegexFacts
  import opened RegexCode
  import opened RegexAnalysis
  import opened RegexMachine
  import opened RegexCorrect

  /** LINE FEED, CARRIAGE RETURN, LINE SEPARATOR and PARAGRAPH SEPARATOR. */
  const LINE_TERMINATORS: seq<int> := [0x0A, 0x0B, 0x0D, 0x0E, 0x2028, 0x202A]

  /** `[0-9A-Z_a-z]`. */
  const WORD_CHARS: seq<int> := [0x30, 0x3A, 0x41, 0x5B, 0x5F, 0x60, 0x61, 0x7B]

  /** The pattern matches at `s`, going back or forward. */
  predicate Holds(e: Env, n: Node, back: bool, s: State) {
    Outcomes(e, n, back, 0, s) != []
  }

  // ----- Sets of characters -----

  /** The first interval of a list and the others. */
  lemma MemberFirst(x: int, y: int, rest: seq<int>, c: int)
    requires x <= y
    ensures Member([x, y] + rest, c) == ((x <= c < y) != Member(rest, c))
  {
    var p := [x, y] + rest;
    assert p != [] && p[0] == x && p[1..] == [y] + rest;
    assert ([y] + rest)[1..] == rest;
    assert CountUpTo([y] + rest, c) == (if y <= c then 1 else 0) + CountUpTo(rest, c);
  }

  lemma MemberNone(c: int)
    ensures !Member([], c)
  {
  }

  lemma LineTerminatorsAre(c: int)
    ensures Member(LINE_TERMINATORS, c) <==> c == 0x0A || c == 0x0D || c == 0x2028 || c == 0x2029
  {
    hide Member;
    var none: seq<int> := [];
    var b := [0x2028, 0x202A] + none;
    var a := [0x0D, 0x0E] + b;
    assert LINE_TERMINATORS == [0x0A, 0x0B] + a;
    MemberFirst(0x0A, 0x0B, a, c);
    MemberFirst(0x0D, 0x0E, b, c);
    MemberFirst(0x2028, 0x202A, none, c);
    MemberNone(c);
  }

  lemma WordCharsAre(c: int)
    ensures Member(WORD_CHARS, c)
        <==> 0x30 <= c <= 0x39 || 0x41 <= c <= 0x5A || c == 0x5F || 0x61 <= c <= 0x7A
  {
    hide Member;
    var none: seq<int> := [];
    var d := [0x61, 0x7B] + none;
    var b := [0x5F, 0x60] + d;
    var a := [0x41, 0x5B] + b;
    assert WORD_CHARS == [0x30, 0x3A] + a;
    MemberFirst(0x30, 0x3A, a, c);
    MemberFirst(0x41, 0x5B, b, c);
    MemberFirst(0x5F, 0x60, d, c);
    MemberFirst(0x61, 0x7B, none, c);
    MemberNone(c);
  }

  lemma SetsWellFormed()
    ensures WellFormed(Class(LINE_TERMINATORS)) && WellFormed(Class(WORD_CHARS))
  {
  }

  // ----- Lines -----

  /** `.` fails on exactly the characters of the class of line terminators. */
  lemma DotLaw(c: int)
    ensures RegexSemantics.Accepts(AnyChar(false), c) <==> !RegexSemantics.Accepts(Class(LINE_TERMINATORS), c)
    ensures RegexSemantics.Accepts(AnyChar(true), c)
  {
    LineTerminatorsAre(c);
    hide Member;
  }

  /** The outcomes of a character test. */
  lemma TestHolds(e: Env, n: Node, back: bool, s: State)
    requires IsOneChar(n) && s.pos <= |e.inp.units|
    ensures Holds(e, n, back, s)
        <==> if back then 0 < s.pos && RegexSemantics.Accepts(n, e.inp.CharAt(e.inp.Prev(s.pos)))
             else s.pos < |e.inp.units| && RegexSemantics.Accepts(n, e.inp.CharAt(s.pos))
  {
    hide RegexSemantics.Accepts;
  }

  /** `$` holds at the end, and in multiline mode exactly where `.` going forward fails: before a line terminator. */
  lemma LineEndLaw(e: Env, back: bool, s: State)
    requires s.pos <= |e.inp.units|
    ensures Holds(e, Node.LineEnd, back, s)
        <==> if e.multiLine then !Holds(e, AnyChar(false), false, s) else s.pos == |e.inp.units|
    ensures s.pos < |e.inp.units| && e.multiLine
            ==> (Holds(e, Node.LineEnd, back, s) <==> Holds(e, Class(LINE_TERMINATORS), false, s))
  {
    TestHolds(e, AnyChar(false), false, s);
    TestHolds(e, Class(LINE_TERMINATORS), false, s);
    if s.pos < |e.inp.units| {
      DotLaw(e.inp.CharAt(s.pos));
    }
    hide Member;
  }

  /** `^` holds at the start, and in multiline mode exactly where `.` going back fails: behind a line terminator. */
  lemma LineStartLaw(e: Env, back: bool, s: State)
    requires e.inp.Boundary(s.pos)
    ensures Holds(e, Node.LineStart, back, s)
        <==> if e.multiLine then !Holds(e, AnyChar(false), true, s) else s.pos == 0
    ensures 0 < s.pos && e.multiLine
            ==> (Holds(e, Node.LineStart, back, s) <==> Holds(e, Class(LINE_TERMINATORS), true, s))
  {
    TestHolds(e, AnyChar(false), true, s);
    TestHolds(e, Class(LINE_TERMINATORS), true, s);
    if s.pos > 0 {
      BeforeIs(e.inp, s.pos);
      DotLaw(CharBefore(e.inp, s.pos));
    }
    hide Member;
  }

  /** At a boundary the character behind is the one read after a step back. */
  lemma BeforeIs(inp: Input, p: nat)
    requires 0 < p && inp.Boundary(p)
    ensures CharBefore(inp, p) == inp.CharAt(inp.Prev(p))
  {
  }

  // ----- Words -----

  /** `\b` holds where exactly one of a lookbehind and a lookahead for a word character does, `\B` elsewhere. */
  lemma WordBoundaryLaw(e: Env, back: bool, s: State)
    requires e.inp.Boundary(s.pos)
    ensures var w := Class(WORD_CHARS);
      var behind, ahead := Holds(e, Look(false, true, w), back, s), Holds(e, Look(false, false, w), back, s);
      && (Holds(e, Node.WordBoundary(false), back, s) <==> behind != ahead)
      && (Holds(e, Node.WordBoundary(true), back, s) <==> behind == ahead)
  {
    var w := Class(WORD_CHARS);
    LookHolds(e, true, w, back, s);
    LookHolds(e, false, w, back, s);
    TestHolds(e, w, true, s);
    TestHolds(e, w, false, s);
    if s.pos > 0 {
      BeforeIs(e.inp, s.pos);
      WordCharsAre(CharBefore(e.inp, s.pos));
    }
    if s.pos < |e.inp.units| {
      WordCharsAre(e.inp.CharAt(s.pos));
    }
    WordHolds(e, false, back, s);
    WordHolds(e, true, back, s);
    hide Member;
    hide Outcomes;
  }

  lemma LookHolds(e: Env, behind: bool, n: Node, back: bool, s: State)
    ensures Holds(e, Look(false, behind, n), back, s) == Holds(e, n, behind, s)
    ensures Holds(e, Look(true, behind, n), back, s) != Holds(e, n, behind, s)
  {
  }

  lemma WordHolds(e: Env, negated: bool, back: bool, s: State)
    ensures Holds(e, Node.WordBoundary(negated), back, s) == (AtWordBoundary(e, s.pos) != negated)
  {
    hide AtWordBoundary;
  }

  // ----- The same of the machine -----

  /** The instruction of an assertion runs on where the assertion has an outcome and fails elsewhere. */
  lemma AssertionStepLaw(m: Machine, n: Node, back: bool, next: int, s: State, stk: seq<int>, k: seq<Saved>)
    requires n.LineStart? || n.LineEnd? || n.WordBoundary?
    ensures StepInstr(m, AssertionInstr(n), next, s, stk, k)
         == if Holds(m.e, n, back, s) then Run(next, s, stk, k) else Fail(k)
  {
    hide AtLineStart;
    hide AtLineEnd;
    hide AtWordBoundary;
    hide GreedyScan;
  }

  // ----- Characters -----

  /** A code point above 0xFFFF is read from its two halves, forward and back, and no position between them is a
      boundary. Without the Unicode flag the halves are characters. */
  lemma PairLaw(before: seq<unit>, c: int, after: seq<unit>, utf16: bool)
    requires 0x1_0000 <= c <= 0x10_FFFF
    ensures var hi: int, lo: int := 0xD800 + (c - 0x1_0000) / 0x400, 0xDC00 + (c - 0x1_0000) % 0x400;
      0 <= hi < 0x1_0000 && 0 <= lo < 0x1_0000
    ensures var hi: unit, lo: unit := 0xD800 + (c - 0x1_0000) / 0x400, 0xDC00 + (c - 0x1_0000) % 0x400;
      var inp, p := Input(before + [hi, lo] + after, utf16), |before|;
      && inp.CharAt(p) == (if utf16 then c else hi) && inp.Next(p) == (if utf16 then p + 2 else p + 1)
      && inp.Prev(p + 2) == (if utf16 then p else p + 1) && inp.Boundary(p + 1) == !utf16
  {
    var hi: unit, lo: unit := 0xD800 + (c - 0x1_0000) / 0x400, 0xDC00 + (c - 0x1_0000) % 0x400;
    var units := before + [hi, lo] + after;
    assert units[|before|] == hi && units[|before| + 1] == lo;
  }

  /** A unit that is not followed by the other half of a pair is a character. */
  lemma SingleLaw(inp: Input, p: nat)
    requires p < |inp.units|
    requires !(0xD800 <= inp.units[p] <= 0xDBFF && p + 1 < |inp.units| && 0xDC00 <= inp.units[p + 1] <= 0xDFFF)
    ensures inp.CharAt(p) == inp.units[p] && inp.Next(p) == p + 1
  {
  }

  // ----- Captures -----

  lemma {:induction false} ResetLaw(caps: seq<int>, first: nat, last: int, i: nat)
    requires i < |caps|
    ensures ResetCaps(caps, first, last)[i] == if 2 * first <= i <= 2 * last + 1 then -1 else caps[i]
    decreases last - first
  {
    if first <= last {
      ResetLaw(SetCap(SetCap(caps, 2 * first, -1), 2 * first + 1, -1), first + 1, last, i);
    }
  }

  lemma SkippedOnce(e: Env, n: Node, back: bool, cap: nat, greedy: bool, s: State)
    ensures Outcomes(e, Repeat(n, 0, 0, greedy), back, cap, s)
         == [State(s.pos, ResetCaps(s.caps, cap, cap + Groups(n) - 1))]
  {
    FromNone(e, n, back, cap, greedy, [State(s.pos, ResetCaps(s.caps, cap, cap + Groups(n) - 1))]);
    hide OptionalFromAll, Mandatory, ResetCaps;
  }

  /** A part that is repeated no times matches the empty text, and its groups hold nothing afterwards. */
  lemma SkippedForgets(e: Env, n: Node, back: bool, cap: nat, greedy: bool, s: State)
    ensures var xs := Outcomes(e, Repeat(n, 0, 0, greedy), back, cap, s);
      && |xs| == 1 && xs[0].pos == s.pos && |xs[0].caps| == |s.caps|
      && forall i :: 0 <= i < |s.caps|
             ==> xs[0].caps[i] == if 2 * cap <= i < 2 * (cap + Groups(n)) then -1 else s.caps[i]
  {
    var s0 := State(s.pos, ResetCaps(s.caps, cap, cap + Groups(n) - 1));
    hide *;
    SkippedOnce(e, n, back, cap, greedy, s);
    forall i | 0 <= i < |s.caps|
      ensures s0.caps[i] == if 2 * cap <= i < 2 * (cap + Groups(n)) then -1 else s.caps[i]
    {
      ResetLaw(s.caps, cap, cap + Groups(n) - 1, i);
    }
  }

  // ----- Back references -----

  /** A reference to a group that holds nothing matches the empty text. */
  lemma UnsetLaw(e: Env, g: int, back: bool, cap: nat, s: State)
    requires 0 <= g < e.groups && |s.caps| == 2 * e.groups && s.caps[2 * g] == -1
    ensures Outcomes(e, BackRef(g), back, cap, s) == [s]
  {
  }

  /** A group and a reference to it match a text and a second copy of it: going forward the reference ends one length
      of the group further on, if the same units stand there. */
  lemma CopyLaw(e: Env, g: nat, s: State, p: nat)
    requires g < e.groups && |s.caps| == 2 * e.groups && s.caps[2 * g] == p < s.pos == s.caps[2 * g + 1]
    requires s.pos <= |e.inp.units| && e.inp.Boundary(s.pos)
    ensures var q := s.pos + (s.pos - p);
      Outcomes(e, BackRef(g), false, 0, s) != []
      <==> q <= |e.inp.units| && e.inp.units[s.pos..q] == e.inp.units[p..s.pos] && e.inp.Boundary(q)
  {
  }
}
