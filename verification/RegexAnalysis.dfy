/** What the compiler's two byte-code scans establish about the meaning of the atom they scan,
    and that every operand it emits fits its field. */
module RegexAnalysis {
  import opened Bytes
  import opened Instructions
  import opened MatchInput
  import opened RegexSemantics
  import opened RegexFacts
  import opened RegexCode
  import RegexClass

  lemma {:induction false} SimpleConcat(a: seq<Instr>, b: seq<Instr>)
    ensures SimpleCount(a + b)
         == if SimpleCount(a) < 0 || SimpleCount(b) < 0 then -1 else SimpleCount(a) + SimpleCount(b)
  {
    if a == [] {
      assert a + b == b;
    } else {
      assert (a + b)[0] == a[0] && (a + b)[1..] == a[1..] + b;
      SimpleConcat(a[1..], b);
    }
  }

  lemma {:induction false} ScanConcat(a: seq<Instr>, b: seq<Instr>)
    ensures AllPredictable(a + b) == (AllPredictable(a) && AllPredictable(b))
    ensures HasChar(a + b) == (HasChar(a) || HasChar(b))
  {
    if a == [] {
      assert a + b == b;
    } else {
      assert (a + b)[0] == a[0] && (a + b)[1..] == a[1..] + b;
      ScanConcat(a[1..], b);
    }
  }

  lemma {:induction false} SimpleBound(a: seq<Instr>)
    ensures SimpleCount(a) <= Length(a)
  {
    if a != [] {
      SimpleBound(a[1..]);
    }
  }

  lemma SimpleOne(i: Instr)
    ensures SimpleCount([i]) == if IsCharInstr(i) then 1 else if IsAssertion(i) then 0 else -1
    ensures AllPredictable([i]) == IsPredictable(i) && HasChar([i]) == IsCharInstr(i)
  {
    assert [i][1..] == [];
  }

  lemma {:induction false} FromNone(e: Env, n: Node, back: bool, cap: nat, greedy: bool, xs: seq<State>)
    ensures OptionalFromAll(e, n, back, cap, 0, false, greedy, xs) == xs
    ensures MandatoryFromAll(e, n, back, cap, 0, xs) == xs
  {
    if xs != [] {
      FromNone(e, n, back, cap, greedy, xs[1..]);
    }
  }

  /** `a{0}` and `a{1}` mean the empty pattern and `a`. */
  lemma RepeatFixed(e: Env, n: Node, back: bool, cap: nat, s: State)
    requires n.Repeat? && n.min == n.max && n.min <= 1
    requires n.min == 0 ==> Groups(n.body) == 0
    ensures 0 <= n.min ==> Outcomes(e, n, back, cap, s) == if n.min == 0 then [s] else Outcomes(e, n.body, back, cap, s)
  {
    if n.min >= 0 {
      var s0 := if n.min == 0 then State(s.pos, ResetCaps(s.caps, cap, cap + Groups(n.body) - 1)) else s;
      assert s0 == s;
      var xs := if n.min == 0 then [s] else Mandatory(e, n.body, back, cap, 1, s);
      FromNone(e, n.body, back, cap, n.greedy, xs);
      FromNone(e, n.body, back, cap, n.greedy, Outcomes(e, n.body, back, cap, s));
    }
  }

  /** An instruction neither scan accepts. */
  lemma {:induction false} HasJump(code: seq<Instr>, k: nat)
    requires k < |code| && !IsPredictable(code[k])
    ensures SimpleCount(code) < 0 && !AllPredictable(code)
  {
    if k > 0 {
      HasJump(code[1..], k - 1);
    }
  }

  lemma OptionalJump(g: seq<Instr>, min: int, max: int, greedy: bool) returns (k: nat)
    requires 0 <= min < max || max == INFINITE
    ensures k < |OptionalCode(g, min, max, greedy)| && !IsPredictable(OptionalCode(g, min, max, greedy)[k])
  {
    hide Length;
    k := if max == INFINITE || (min == 0 && max == 1) then 0 else 1;
    if k == 1 {
      assert OptionalCode(g, min, max, greedy)[1] == LoopCode(g, greedy, false)[0];
    }
  }

  /** A repeat other than `a{0}` and `a{1}` contains an instruction neither scan accepts. */
  lemma RepeatJump(c: seq<Instr>, groups: nat, cap: nat, min: int, max: int, greedy: bool) returns (k: nat)
    requires 0 <= min <= max <= INFINITE && !(min == max <= 1)
    ensures k < |RepeatCode(c, groups, cap, min, max, greedy)|
    ensures !IsPredictable(RepeatCode(c, groups, cap, min, max, greedy)[k])
  {
    hide Length;
    hide SimpleCount;
    hide MayStay;
    hide OptionalCode;
    var mc, oc := MandatoryCode(c, groups, cap, min), OptionalCode(Guarded(MayStay(c), c), min, max, greedy);
    if IsSimpleRepeat(c, max, greedy) {
      k := 0;
    } else if IsPlus(c, min, max) {
      k := |c|;
    } else if min < max || max == INFINITE {
      var j := OptionalJump(Guarded(MayStay(c), c), min, max, greedy);
      k := |mc| + j;
      assert (mc + oc)[k] == oc[j];
    } else {
      k := 1 + |c|;
      assert (mc + oc)[k] == mc[k];
    }
  }

  lemma RepeatShort(c: seq<Instr>, groups: nat, cap: nat, min: int, max: int, greedy: bool)
    requires min == max && 0 <= max <= 1
    ensures var code := RepeatCode(c, groups, cap, min, max, greedy);
      || (code == c && min == 1 && !(greedy && SimpleCount(c) > 0))
      || (code == [] && min == 0 && groups == 0)
      || (code == [SaveReset(cap, cap + groups - 1)] && min == 0 && groups > 0)
      || (code != [] && code[0].SimpleGreedyQuant? && min == 1)
  {
    hide Length;
    if greedy && max > 0 && SimpleCount(c) > 0 {
    } else {
      assert RepeatCode(c, groups, cap, min, max, greedy) == MandatoryCode(c, groups, cap, min) + [];
    }
  }

  /** A repeat whose code contains no jump is `a{0}` or `a{1}`. */
  lemma RepeatLinear(n: Node, back: bool, cap: nat)
    requires WellFormed(n) && n.Repeat?
    requires SimpleCount(Code(n, back, cap)) >= 0 || AllPredictable(Code(n, back, cap))
    ensures n.min == n.max <= 1
    ensures n.min == 1 ==> Code(n, back, cap) == Code(n.body, back, cap)
    ensures n.min == 0 ==> !HasChar(Code(n, back, cap))
    ensures n.min == 0 && SimpleCount(Code(n, back, cap)) >= 0
            ==> Groups(n.body) == 0 && SimpleCount(Code(n, back, cap)) == 0
  {
    var c, g := Code(n.body, back, cap), Groups(n.body);
    assert Code(n, back, cap) == RepeatCode(c, g, cap, n.min, n.max, n.greedy);
    if n.min == n.max <= 1 {
      RepeatShort(c, g, cap, n.min, n.max, n.greedy);
      SimpleOne(SaveReset(cap, cap + g - 1));
      if Code(n, back, cap) != [] && Code(n, back, cap)[0].SimpleGreedyQuant? {
        HasJump(Code(n, back, cap), 0);
      }
    } else {
      var k := RepeatJump(c, g, cap, n.min, n.max, n.greedy);
      HasJump(Code(n, back, cap), k);
    }
  }

  lemma CharInstrScan(n: Node, back: bool, cap: nat)
    requires WellFormed(n) && IsOneChar(n)
    ensures back ==> SimpleCount(Code(n, back, cap)) < 0
    ensures !back ==> SimpleCount(Code(n, back, cap)) == 1
    ensures AllPredictable(Code(n, back, cap)) && HasChar(Code(n, back, cap))
  {
    var i :=
      match n
      case Char(c) => CharInstr(c)
      case Class(p) => ClassInstr(p)
      case AnyChar(b) => (if b then Any else Dot);
    SimpleOne(i);
    SimpleOne(Prev);
    if back {
      assert Code(n, back, cap) == [Prev] + [i] + [Prev];
      SimpleConcat([Prev], [i]);
      SimpleConcat([Prev] + [i], [Prev]);
      ScanConcat([Prev], [i]);
      ScanConcat([Prev] + [i], [Prev]);
    }
  }

  /** No way to match, or exactly one: `count` characters on, the captures as they were. */
  ghost predicate Matches(inp: Input, xs: seq<State>, s: State, count: int)
    requires s.pos <= |inp.units|
  {
    xs == [] || (|xs| == 1 && count >= 0 && xs[0].caps == s.caps && xs[0].pos == inp.NextN(s.pos, count))
  }

  lemma {:induction false} NextNAdd(inp: Input, p: nat, i: nat, j: nat)
    requires p <= |inp.units| && inp.NextN(p, i) >= 0
    ensures inp.NextN(p, i + j) == inp.NextN(inp.NextN(p, i), j)
    decreases i
  {
    if i > 0 {
      NextNAdd(inp, inp.Next(p), i - 1, j);
    }
  }

  lemma CatCode(n: Node, back: bool, cap: nat)
    requires WellFormed(n) && n.Cat?
    ensures WellFormed(n.left) && WellFormed(n.right) && Groups(n) == Groups(n.left) + Groups(n.right)
    ensures back ==> Code(n, back, cap) == Code(n.right, back, cap + Groups(n.left)) + Code(n.left, back, cap)
    ensures !back ==> Code(n, back, cap) == Code(n.left, back, cap) + Code(n.right, back, cap + Groups(n.left))
  {
    hide RepeatCode;
    hide Length;
    hide Directed;
    hide ClassInstr;
    hide CharInstr;
  }

  lemma AltCode(n: Node, back: bool, cap: nat)
    requires WellFormed(n) && n.Alt?
    ensures WellFormed(n.left) && WellFormed(n.right) && Groups(n) == Groups(n.left) + Groups(n.right)
    ensures Code(n, back, cap) == EitherCode(Code(n.left, back, cap), Code(n.right, back, cap + Groups(n.left)))
  {
    hide EitherCode;
    hide AroundCode;
    hide RepeatCode;
    hide Directed;
    hide ClassInstr;
    hide CharInstr;
  }

  lemma LookCode(n: Node, back: bool, cap: nat)
    requires WellFormed(n) && n.Look?
    ensures WellFormed(n.body) && Groups(n) == Groups(n.body)
    ensures Code(n, back, cap) == AroundCode(n.negated, Code(n.body, n.behind, cap))
  {
    hide EitherCode;
    hide AroundCode;
    hide RepeatCode;
    hide Directed;
    hide ClassInstr;
    hide CharInstr;
  }

  lemma CaptureCode(n: Node, back: bool, cap: nat)
    requires WellFormed(n) && n.Capture?
    ensures WellFormed(n.body) && Groups(n) == 1 + Groups(n.body)
    ensures Code(n, back, cap) == [if back then SaveEnd(cap) else SaveStart(cap)] + Code(n.body, back, cap + 1)
                                  + [if back then SaveStart(cap) else SaveEnd(cap)]
  {
    hide RepeatCode;
    hide Directed;
    hide ClassInstr;
    hide CharInstr;
  }

  lemma CatOutcomes(e: Env, n: Node, back: bool, cap: nat, s: State)
    requires n.Cat?
    ensures Outcomes(e, n, back, cap, s)
            == if back then FromAll(e, n.left, back, cap, Outcomes(e, n.right, back, cap + Groups(n.left), s))
               else FromAll(e, n.right, back, cap + Groups(n.left), Outcomes(e, n.left, back, cap, s))
  {
  }

  lemma SimpleLeaf(e: Env, n: Node, cap: nat, s: State)
    requires WellFormed(n) && Ok(e, s) && (n.Empty? || n.LineStart? || n.LineEnd? || n.WordBoundary?)
    ensures Matches(e.inp, Outcomes(e, n, false, cap, s), s, 0) && SimpleCount(Code(n, false, cap)) == 0
  {
    if !n.Empty? {
      SimpleOne(Code(n, false, cap)[0]);
      assert Code(n, false, cap) == [Code(n, false, cap)[0]];
    }
  }

  /** The atom of a simple quantifier has at most one way to match: it leaves the captures alone
      and consumes exactly the number of characters `re_is_simple_quantifier` counted. */
  lemma {:induction false} SimpleMeaning(e: Env, n: Node, cap: nat, s: State)
    requires WellFormed(n) && Ok(e, s) && SimpleCount(Code(n, false, cap)) >= 0
    ensures Matches(e.inp, Outcomes(e, n, false, cap, s), s, SimpleCount(Code(n, false, cap)))
    decreases n, 1
  {
    hide Outcomes;
    hide Code;
    hide SimpleCount;
    if n.Cat? {
      CatCode(n, false, cap);
      SimpleConcat(Code(n.left, false, cap), Code(n.right, false, cap + Groups(n.left)));
      CatOutcomes(e, n, false, cap, s);
      SimpleCat(e, n, cap, s);
    } else if IsOneChar(n) {
      CharInstrScan(n, false, cap);
      OneCharNext(e, n, cap, s);
    } else if n.Repeat? {
      RepeatLinear(n, false, cap);
      RepeatFixed(e, n, false, cap, s);
      if n.min == 1 {
        SimpleMeaning(e, n.body, cap, s);
      }
    } else if n.Alt? || n.Capture? || n.BackRef? || n.Look? {
      NotSimple(n, cap);
    } else {
      SimpleLeaf(e, n, cap, s);
    }
  }

  /** These constructs never make a simple atom. */
  lemma NotSimple(n: Node, cap: nat)
    requires WellFormed(n) && (n.Alt? || n.Capture? || n.BackRef? || n.Look?)
    ensures SimpleCount(Code(n, false, cap)) < 0
  {
    match n
    case Alt(_, _) => AltJump(n, false, cap);
    case Capture(a) =>
      SimpleOne(SaveStart(cap));
      assert Code(n, false, cap) == [SaveStart(cap)] + (Code(a, false, cap + 1) + [SaveEnd(cap)]);
      SimpleConcat([SaveStart(cap)], Code(a, false, cap + 1) + [SaveEnd(cap)]);
    case BackRef(g) => SimpleOne(BackReference(g));
    case Look(_, _, _) => AltJump(n, false, cap);
  }

  lemma AltJump(n: Node, back: bool, cap: nat)
    requires WellFormed(n) && (n.Alt? || n.Look?)
    ensures SimpleCount(Code(n, back, cap)) < 0 && !AllPredictable(Code(n, back, cap))
  {
    hide *;
    if n.Alt? {
      AltCode(n, back, cap);
      EitherJump(Code(n.left, back, cap), Code(n.right, back, cap + Groups(n.left)));
    } else {
      LookCode(n, back, cap);
      AroundJump(n.negated, Code(n.body, n.behind, cap));
    }
  }

  lemma EitherJump(ca: seq<Instr>, cb: seq<Instr>)
    ensures SimpleCount(EitherCode(ca, cb)) < 0 && !AllPredictable(EitherCode(ca, cb))
  {
    hide SimpleCount;
    hide AllPredictable;
    hide Length;
    HasJump(EitherCode(ca, cb), 0);
  }

  lemma AroundJump(negated: bool, c: seq<Instr>)
    ensures SimpleCount(AroundCode(negated, c)) < 0 && !AllPredictable(AroundCode(negated, c))
  {
    hide SimpleCount;
    hide AllPredictable;
    hide Length;
    HasJump(AroundCode(negated, c), 0);
  }

  /** A character test compiled backwards is never part of a simple atom. */
  lemma {:induction false} BackNotSimple(n: Node, cap: nat)
    requires WellFormed(n)
    ensures SimpleCount(Code(n, true, cap)) <= 0
  {
    hide Code;
    hide SimpleCount;
    if n.Cat? {
      CatCode(n, true, cap);
      SimpleConcat(Code(n.right, true, cap + Groups(n.left)), Code(n.left, true, cap));
      BackNotSimple(n.left, cap);
      BackNotSimple(n.right, cap + Groups(n.left));
    } else if IsOneChar(n) {
      CharInstrScan(n, true, cap);
    } else if n.Repeat? {
      BackNotSimple(n.body, cap);
      if SimpleCount(Code(n, true, cap)) >= 0 {
        RepeatLinear(n, true, cap);
      }
    } else {
      BackLeaf(n, cap);
    }
  }

  lemma BackLeaf(n: Node, cap: nat)
    requires WellFormed(n) && !n.Cat? && !IsOneChar(n) && !n.Repeat?
    ensures SimpleCount(Code(n, true, cap)) <= 0
  {
    match n
    case Alt(_, _) => AltJump(n, true, cap);
    case Look(_, _, _) => AltJump(n, true, cap);
    case Capture(a) =>
      SimpleOne(SaveEnd(cap));
      assert Code(n, true, cap) == [SaveEnd(cap)] + (Code(a, true, cap + 1) + [SaveStart(cap)]);
      SimpleConcat([SaveEnd(cap)], Code(a, true, cap + 1) + [SaveStart(cap)]);
    case BackRef(g) => SimpleOne(BackwardBackReference(g));
    case Empty =>
    case LineStart => SimpleOne(Instr.LineStart);
    case LineEnd => SimpleOne(Instr.LineEnd);
    case WordBoundary(negated) => SimpleOne(if negated then NotWordBoundary else Instr.WordBoundary);
  }

  lemma SimpleCat(e: Env, n: Node, cap: nat, s: State)
    requires WellFormed(n) && n.Cat? && Ok(e, s)
    requires WellFormed(n.left) && WellFormed(n.right)
    requires SimpleCount(Code(n.left, false, cap)) >= 0 && SimpleCount(Code(n.right, false, cap + Groups(n.left))) >= 0
    ensures Matches(e.inp, FromAll(e, n.right, false, cap + Groups(n.left), Outcomes(e, n.left, false, cap, s)), s,
                    SimpleCount(Code(n.left, false, cap)) + SimpleCount(Code(n.right, false, cap + Groups(n.left))))
    decreases n, 0
  {
    hide Outcomes;
    hide Code;
    hide SimpleCount;
    hide Ok;
    hide WellFormed;
    hide FromAll;
    var a, b, cap2 := n.left, n.right, cap + Groups(n.left);
    SimpleMeaning(e, a, cap, s);
    var xs := Outcomes(e, a, false, cap, s);
    FromFew(e, b, false, cap2, xs);
    if xs != [] {
      OutcomesOk(e, a, false, cap, s);
      assert xs[0] in xs;
      SimpleMeaning(e, b, cap2, xs[0]);
      NextNAdd(e.inp, s.pos, SimpleCount(Code(a, false, cap)), SimpleCount(Code(b, false, cap2)));
    }
  }

  lemma FromFew(e: Env, n: Node, back: bool, cap: nat, xs: seq<State>)
    ensures xs == [] ==> FromAll(e, n, back, cap, xs) == []
    ensures |xs| == 1 ==> FromAll(e, n, back, cap, xs) == Outcomes(e, n, back, cap, xs[0])
  {
    hide Outcomes;
    if |xs| == 1 {
      assert xs[1..] == [];
      assert FromAll(e, n, back, cap, xs) == Outcomes(e, n, back, cap, xs[0]) + [];
    }
  }

  lemma OneCharNext(e: Env, n: Node, cap: nat, s: State)
    requires IsOneChar(n) && Ok(e, s)
    ensures Matches(e.inp, Outcomes(e, n, false, cap, s), s, 1)
  {
    if s.pos < |e.inp.units| {
      assert e.inp.NextN(s.pos, 1) == e.inp.NextN(e.inp.Next(s.pos), 0);
    }
  }

  /** The atom `re_need_check_advance` clears always moves in the direction of travel. */
  lemma {:induction false} AdvanceMeaning(e: Env, n: Node, back: bool, cap: nat, s: State)
    requires WellFormed(n) && Ok(e, s) && !MayStay(Code(n, back, cap))
    ensures forall x :: x in Outcomes(e, n, back, cap, s) ==> Advanced(e.inp, back, s.pos, x)
    decreases n, 1, 0
  {
    hide Outcomes;
    hide Code;
    hide AllPredictable;
    hide HasChar;
    if n.Cat? {
      var first, second := if back then n.right else n.left, if back then n.left else n.right;
      var cap1, cap2 := if back then cap + Groups(n.left) else cap, if back then cap else cap + Groups(n.left);
      CatCode(n, back, cap);
      CatOutcomes(e, n, back, cap, s);
      ScanConcat(Code(first, back, cap1), Code(second, back, cap2));
      AdvanceCat(e, n, back, cap1, cap2, s, Outcomes(e, first, back, cap1, s));
    } else if n.Capture? {
      AdvanceCapture(e, n, back, cap, s);
    } else if n.Repeat? {
      RepeatLinear(n, back, cap);
      RepeatFixed(e, n, back, cap, s);
      AdvanceMeaning(e, n.body, back, cap, s);
    } else if IsOneChar(n) {
      AdvanceChar(e, n, back, cap, s);
    } else {
      StaysPut(n, back, cap);
    }
  }

  lemma AdvanceChar(e: Env, n: Node, back: bool, cap: nat, s: State)
    requires IsOneChar(n) && Ok(e, s)
    ensures forall x :: x in Outcomes(e, n, back, cap, s) ==> Advanced(e.inp, back, s.pos, x)
  {
    OneCharOk(e.inp, n, back, s.pos);
  }

  lemma StaysPut(n: Node, back: bool, cap: nat)
    requires WellFormed(n) && !IsOneChar(n) && !n.Cat? && !n.Capture? && !n.Repeat?
    ensures MayStay(Code(n, back, cap))
  {
    match n
    case Alt(_, _) => AltJump(n, back, cap);
    case Look(_, _, _) => AltJump(n, back, cap);
    case BackRef(g) => SimpleOne(if back then BackwardBackReference(g) else BackReference(g));
    case LineStart => SimpleOne(Instr.LineStart);
    case LineEnd => SimpleOne(Instr.LineEnd);
    case WordBoundary(negated) => SimpleOne(if negated then NotWordBoundary else Instr.WordBoundary);
    case Empty =>
  }

  lemma AdvanceCapture(e: Env, n: Node, back: bool, cap: nat, s: State)
    requires WellFormed(n) && n.Capture? && Ok(e, s) && !MayStay(Code(n, back, cap))
    ensures forall x :: x in Outcomes(e, n, back, cap, s) ==> Advanced(e.inp, back, s.pos, x)
    decreases n, 0, 0
  {
    hide AllPredictable;
    hide HasChar;
    var a := n.body;
    var i, j := if back then SaveEnd(cap) else SaveStart(cap), if back then SaveStart(cap) else SaveEnd(cap);
    SimpleOne(i);
    SimpleOne(j);
    ScanConcat([i], Code(a, back, cap + 1));
    ScanConcat([i] + Code(a, back, cap + 1), [j]);
    AdvanceMeaning(e, a, back, cap + 1, Opened(back, cap, s));
    AllClosedAdvanced(e, back, cap, s.pos, Outcomes(e, a, back, cap + 1, Opened(back, cap, s)));
  }

  lemma {:induction false} AdvanceCat(e: Env, n: Node, back: bool, cap1: nat, cap2: nat, s: State, xs: seq<State>)
    requires WellFormed(n) && n.Cat? && Ok(e, s)
    requires var first, second := if back then n.right else n.left, if back then n.left else n.right;
      && AllPredictable(Code(first, back, cap1)) && AllPredictable(Code(second, back, cap2))
      && (HasChar(Code(first, back, cap1)) || HasChar(Code(second, back, cap2)))
      && (forall x :: x in xs ==> x in Outcomes(e, first, back, cap1, s))
    ensures var second := if back then n.left else n.right;
      forall x :: x in FromAll(e, second, back, cap2, xs) ==> Advanced(e.inp, back, s.pos, x)
    decreases n, 0, |xs|
  {
    var first, second := if back then n.right else n.left, if back then n.left else n.right;
    if xs != [] {
      assert xs[0] in xs;
      OutcomesOk(e, first, back, cap1, s);
      OutcomesOk(e, second, back, cap2, xs[0]);
      if HasChar(Code(first, back, cap1)) {
        AdvanceMeaning(e, first, back, cap1, s);
      } else {
        AdvanceMeaning(e, second, back, cap2, xs[0]);
      }
      assert forall x :: x in xs[1..] ==> x in xs;
      AdvanceCat(e, n, back, cap1, cap2, s, xs[1..]);
    }
  }

  lemma {:induction false} AllClosedAdvanced(e: Env, back: bool, cap: nat, p: nat, xs: seq<State>)
    requires forall x :: x in xs ==> Advanced(e.inp, back, p, x)
    ensures forall x :: x in AllClosed(back, cap, xs) ==> Advanced(e.inp, back, p, x)
  {
    if xs != [] {
      assert xs[0] in xs;
      AllClosedAdvanced(e, back, cap, p, xs[1..]);
    }
  }

  lemma {:induction false} AdvancingAll(inp: Input, back: bool, p: nat, xs: seq<State>)
    requires forall x :: x in xs ==> Advanced(inp, back, p, x)
    ensures Advancing(inp, back, p, xs) == xs
  {
    if xs != [] {
      assert xs[0] in xs;
      AdvancingAll(inp, back, p, xs[1..]);
    }
  }
}
