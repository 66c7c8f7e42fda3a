/** The simple greedy quantifier: the scan and the give-back step visit the outcomes of the repeat,
    longest first, down to the minimum. */
module RegexGreedy {
  import opened Bytes
  import opened Instructions
  import opened MatchInput
  import opened RegexSemantics
  import opened RegexFacts
  import opened RegexCode
  import opened RegexAnalysis
  import opened RegexClass
  import opened RegexMachine
  import opened RegexDelivery

  lemma CharTestMeaning(n: Node, c: int)
    requires WellFormed(n) && IsOneChar(n) && 0 <= c < 0x110000
    ensures CharTest(CharNodeInstr(n), c) == Verdict(Accepts(n, c))
  {
    match n
    case Class(p) => ClassInstrMatches(p, c);
    case Char(_) =>
    case AnyChar(_) =>
  }

  /** The instruction a one-character node compiles to. */
  function CharNodeInstr(n: Node): Instr
    requires IsOneChar(n)
  {
    match n
    case Char(c) => CharInstr(c)
    case AnyChar(lineTerminators) => if lineTerminators then Any else Dot
    case Class(p) => ClassInstr(p)
  }

  lemma CharNodeEncodable(n: Node)
    requires WellFormed(n) && IsOneChar(n)
    ensures Encodable(CharNodeInstr(n)) && IsCharInstr(CharNodeInstr(n))
  {
    match n
    case Class(p) => ClassInstrEncodable(p);
    case Char(_) =>
    case AnyChar(_) =>
  }

  /** Where the first outcome of an atom leads, as `AtomRun` reports it. */
  function FirstPos(xs: seq<State>): int {
    if xs == [] then NO_MATCH else xs[0].pos
  }

  /** Running the atom's code up to `next` takes it to its only outcome, or fails. */
  ghost predicate AtomStep(m: Machine, n: Node, cap: nat, pc: nat, next: nat, s: State) {
    AtomRun(m, pc, s.pos)
    == var r := FirstPos(Outcomes(m.e, n, false, cap, s)); if r < 0 then NO_MATCH else AtomRun(m, next, r)
  }

  /** One instruction of the atom. */
  lemma AtomRunOne(m: Machine, i: Instr, pc: nat, p: nat)
    requires CodeAt(m.bc, pc, [i]) && Encodable(i) && !i.Match?
    ensures AtomRun(m, pc, p) == var q := AtomMove(m.e, i, p); if q < 0 then q else AtomRun(m, pc + Length([i]), q)
  {
    hide AtomMove;
    hide Decode;
    CodeFetch(m.bc, pc, i);
  }

  lemma AtomChar(m: Machine, n: Node, cap: nat, pc: nat, s: State)
    requires WellFormed(n) && IsOneChar(n) && Ok(m.e, s) && CodeAt(m.bc, pc, Code(n, false, cap))
    ensures AtomStep(m, n, cap, pc, pc + Length(Code(n, false, cap)), s)
  {
    hide AtomRun;
    hide CharTest;
    hide Length;
    var i := CharNodeInstr(n);
    assert Code(n, false, cap) == [i];
    CharNodeEncodable(n);
    AtomRunOne(m, i, pc, s.pos);
    CharTestMeaning(n, if s.pos < |m.e.inp.units| then m.e.inp.CharAt(s.pos) else 0);
  }

  lemma AtomAssertion(m: Machine, n: Node, cap: nat, pc: nat, s: State)
    requires (n.LineStart? || n.LineEnd? || n.WordBoundary?) && WellFormed(n) && CodeAt(m.bc, pc, Code(n, false, cap))
    ensures AtomStep(m, n, cap, pc, pc + Length(Code(n, false, cap)), s)
  {
    hide AtomRun;
    hide Length;
    var i := Code(n, false, cap)[0];
    assert Code(n, false, cap) == [i];
    AtomRunOne(m, i, pc, s.pos);
  }

  lemma AtomEmpty(m: Machine, n: Node, cap: nat, pc: nat, s: State)
    requires WellFormed(n) && (n.Empty? || (n.Repeat? && n.min == n.max == 0 && Groups(n.body) == 0))
    ensures AtomStep(m, n, cap, pc, pc + Length(Code(n, false, cap)), s)
  {
    hide AtomRun;
    if n.Repeat? {
      RepeatShort(Code(n.body, false, cap), 0, cap, 0, 0, n.greedy);
      RepeatFixed(m.e, n, false, cap, s);
    }
  }

  lemma {:induction false} AtomMeaning(m: Machine, n: Node, cap: nat, pc: nat, s: State)
    requires WellFormed(n) && Ok(m.e, s) && SimpleCount(Code(n, false, cap)) >= 0
    requires CodeAt(m.bc, pc, Code(n, false, cap))
    ensures AtomStep(m, n, cap, pc, pc + Length(Code(n, false, cap)), s)
    decreases n, 1
  {
    hide AtomRun;
    hide Outcomes;
    hide Code;
    hide SimpleCount;
    if n.Cat? {
      CatCode(n, false, cap);
      SimpleConcat(Code(n.left, false, cap), Code(n.right, false, cap + Groups(n.left)));
      AtomCat(m, n, cap, pc, s);
    } else if IsOneChar(n) {
      AtomChar(m, n, cap, pc, s);
    } else if n.Repeat? {
      RepeatLinear(n, false, cap);
      RepeatFixed(m.e, n, false, cap, s);
      if n.min == 1 {
        AtomMeaning(m, n.body, cap, pc, s);
      } else {
        AtomEmpty(m, n, cap, pc, s);
      }
    } else if n.Alt? || n.Capture? || n.BackRef? || n.Look? {
      NotSimple(n, cap);
    } else if n.Empty? {
      AtomEmpty(m, n, cap, pc, s);
    } else {
      AtomAssertion(m, n, cap, pc, s);
    }
  }

  lemma AtomCat(m: Machine, n: Node, cap: nat, pc: nat, s: State)
    requires WellFormed(n) && n.Cat? && Ok(m.e, s) && CodeAt(m.bc, pc, Code(n, false, cap))
    requires SimpleCount(Code(n.left, false, cap)) >= 0 && SimpleCount(Code(n.right, false, cap + Groups(n.left))) >= 0
    ensures AtomStep(m, n, cap, pc, pc + Length(Code(n, false, cap)), s)
    decreases n, 0
  {
    hide Outcomes;
    hide Code;
    hide AtomRun;
    hide SimpleCount;
    hide Length;
    hide CodeAt;
    hide Ok;
    hide FromAll;
    var a, b, cap2 := n.left, n.right, cap + Groups(n.left);
    var ca, cb := Code(a, false, cap), Code(b, false, cap2);
    CatCode(n, false, cap);
    CatOutcomes(m.e, n, false, cap, s);
    CodeSplit(m.bc, pc, ca, cb);
    LengthConcat(ca, cb);
    AtomMeaning(m, a, cap, pc, s);
    SimpleMeaning(m.e, a, cap, s);
    var xs := Outcomes(m.e, a, false, cap, s);
    FromFew(m.e, b, false, cap2, xs);
    if xs != [] {
      OutcomesOk(m.e, a, false, cap, s);
      assert xs[0] in xs;
      AtomMeaning(m, b, cap2, pc + Length(ca), xs[0]);
    }
  }

  lemma {:induction false} SimpleNoGroups(n: Node, cap: nat)
    requires WellFormed(n) && SimpleCount(Code(n, false, cap)) >= 0
    ensures Groups(n) == 0
  {
    hide *;
    if n.Cat? {
      CatCode(n, false, cap);
      SimpleConcat(Code(n.left, false, cap), Code(n.right, false, cap + Groups(n.left)));
      SimpleNoGroups(n.left, cap);
      SimpleNoGroups(n.right, cap + Groups(n.left));
    } else if n.Repeat? {
      RepeatLinear(n, false, cap);
      RepeatParts(n);
      if n.min == 1 {
        SimpleNoGroups(n.body, cap);
      }
    } else if n.Alt? || n.Capture? || n.BackRef? || n.Look? {
      NotSimple(n, cap);
    } else {
      LeafGroups(n);
    }
  }

  lemma RepeatParts(n: Node)
    requires WellFormed(n) && n.Repeat?
    ensures WellFormed(n.body) && Groups(n) == Groups(n.body) && n.min >= 0
  {
  }

  lemma LeafGroups(n: Node)
    requires !n.Cat? && !n.Repeat? && !n.Alt? && !n.Capture? && !n.Look?
    ensures Groups(n) == 0
  {
  }

  lemma {:induction false} NextNOk(inp: Input, p: nat, n: nat)
    requires inp.Boundary(p) && inp.NextN(p, n) >= 0
    ensures inp.Boundary(inp.NextN(p, n)) && inp.PrevN(inp.NextN(p, n), n) == p
    ensures n > 0 ==> inp.NextN(p, n) > p
    decreases n
  {
    if n > 0 {
      inp.PrevNext(p);
      NextNOk(inp, inp.Next(p), n - 1);
      PrevNLast(inp, inp.NextN(p, n), n - 1);
    }
  }

  /** The last of the steps back can be taken out. */
  lemma {:induction false} PrevNLast(inp: Input, p: nat, n: nat)
    requires p <= |inp.units| && inp.PrevN(p, n) > 0
    ensures inp.PrevN(p, n + 1) == inp.Prev(inp.PrevN(p, n))
    decreases n
  {
    if n > 0 {
      PrevNLast(inp, inp.Prev(p), n - 1);
    }
  }

  /** The positions the give-back step visits, `c` steps of `n` characters back from `p`. */
  function GiveBack(inp: Input, n: nat, p: nat, c: nat, caps: seq<int>): seq<State>
    requires p <= |inp.units|
    decreases c
  {
    var q := inp.PrevN(p, n);
    [State(p, caps)] + (if c == 0 || q < 0 then [] else GiveBack(inp, n, q, c - 1, caps))
  }

  function BackBy(inp: Input, n: nat, p: int, c: nat): (r: int)
    requires p <= |inp.units|
    ensures r <= |inp.units|
    decreases c
  {
    if c == 0 || p < 0 then p else BackBy(inp, n, inp.PrevN(p, n), c - 1)
  }

  lemma {:induction false} GiveBackMore(inp: Input, n: nat, p: nat, c: nat, caps: seq<int>, q: nat)
    requires p <= |inp.units| && BackBy(inp, n, p, c + 1) == q
    ensures GiveBack(inp, n, p, c + 1, caps) == GiveBack(inp, n, p, c, caps) + [State(q, caps)]
    decreases c
  {
    if c > 0 {
      GiveBackMore(inp, n, inp.PrevN(p, n), c - 1, caps, q);
    }
  }

  lemma {:induction false} BackByMore(inp: Input, n: nat, p: nat, c: nat)
    requires p <= |inp.units| && BackBy(inp, n, p, c) >= 0
    ensures BackBy(inp, n, p, c + 1) == inp.PrevN(BackBy(inp, n, p, c), n)
    decreases c
  {
    if c > 0 {
      BackByMore(inp, n, inp.PrevN(p, n), c - 1);
    }
  }

  /** The atom of a simple quantifier and the place its code stands at. */
  ghost predicate SimpleAtom(m: Machine, n: Node, cap: nat, pc: nat, count: nat) {
    && WellFormed(n)
    && SimpleCount(Code(n, false, cap)) == count > 0
    && CodeAt(m.bc, pc, Code(n, false, cap) + [Match])
  }

  /** `no_recurse` mode returns where the atom's first outcome ends. */
  lemma AtomResult(m: Machine, n: Node, cap: nat, pc: nat, count: nat, s: State)
    requires SimpleAtom(m, n, cap, pc, count) && Ok(m.e, s)
    ensures AtomRun(m, pc, s.pos) == FirstPos(Outcomes(m.e, n, false, cap, s))
  {
    hide Outcomes;
    hide Code;
    hide SimpleCount;
    hide Length;
    hide AtomRun;
    var c := Code(n, false, cap);
    CodeSplit(m.bc, pc, c, [Match]);
    AtomMeaning(m, n, cap, pc, s);
    AtomMatch(m, pc + Length(c), FirstPos(Outcomes(m.e, n, false, cap, s)));
  }

  lemma AtomMatch(m: Machine, pc: nat, p: int)
    requires CodeAt(m.bc, pc, [Match])
    ensures 0 <= p ==> AtomRun(m, pc, p) == p
  {
    CodeFetch(m.bc, pc, Match);
  }

  /** Each run of the atom advances, and the give-back step undoes it. */
  lemma AtomAdvances(m: Machine, n: Node, cap: nat, pc: nat, count: nat, s: State)
    requires SimpleAtom(m, n, cap, pc, count) && Ok(m.e, s)
    ensures var xs := Outcomes(m.e, n, false, cap, s);
      xs == [] ||
      (|xs| == 1 && xs[0].caps == s.caps && Ok(m.e, xs[0]) && s.pos < xs[0].pos <= |m.e.inp.units|
       && m.e.inp.PrevN(xs[0].pos, count) == s.pos && Advanced(m.e.inp, false, s.pos, xs[0]))
  {
    hide Outcomes;
    hide Code;
    hide SimpleCount;
    hide Length;
    hide CodeAt;
    SimpleMeaning(m.e, n, cap, s);
    var xs := Outcomes(m.e, n, false, cap, s);
    if xs != [] {
      OutcomesOk(m.e, n, false, cap, s);
      assert xs[0] in xs;
      NextNOk(m.e.inp, s.pos, count);
    }
  }

  /** One run of the atom in `no_recurse` mode. */
  lemma AtomOnce(m: Machine, n: Node, cap: nat, pc: nat, count: nat, s: State)
    requires SimpleAtom(m, n, cap, pc, count) && Ok(m.e, s)
    ensures var xs := Outcomes(m.e, n, false, cap, s);
      && AtomRun(m, pc, s.pos) == FirstPos(xs)
      && (xs == [] ||
          (|xs| == 1 && xs[0].caps == s.caps && Ok(m.e, xs[0]) && s.pos < xs[0].pos <= |m.e.inp.units|
           && m.e.inp.PrevN(xs[0].pos, count) == s.pos && Advanced(m.e.inp, false, s.pos, xs[0])))
  {
    hide *;
    AtomResult(m, n, cap, pc, count, s);
    AtomAdvances(m, n, cap, pc, count, s);
  }

  /** From iteration `q` on, the scan ends where the longest optional outcome does, and the
      give-back positions are the optional outcomes in order. */
  lemma {:induction false} ScanOptional(m: Machine, n: Node, cap: nat, pc: nat, count: nat, max: int, q: nat, s: State)
    requires SimpleAtom(m, n, cap, pc, count) && Ok(m.e, s) && (q < max || max == INFINITE)
    ensures var r := GreedyScan(m, pc, s.pos, max, q);
      && r.Scan? && q <= r.count && r.pos <= |m.e.inp.units| && m.e.inp.Boundary(r.pos)
      && BackBy(m.e.inp, count, r.pos, r.count - q) == s.pos
      && Optional(m.e, n, false, cap, max - q, max == INFINITE, true, s)
         == GiveBack(m.e.inp, count, r.pos, r.count - q, s.caps)
    decreases |m.e.inp.units| - s.pos
  {
    hide Outcomes;
    hide AtomRun;
    hide Code;
    hide GiveBack;
    hide Optional;
    AtomOnce(m, n, cap, pc, count, s);
    OptionalOnce(m, n, cap, max - q, max == INFINITE, s);
    var inp, xs := m.e.inp, Outcomes(m.e, n, false, cap, s);
    if xs == [] {
      GiveBackOne(inp, count, s.pos, s.caps);
    } else {
      var x := xs[0];
      GiveBackOne(inp, count, x.pos, s.caps);
      if max <= q + 1 && max != INFINITE {
        OptionalZero(m.e, n, cap, x);
        GiveBackMore(inp, count, x.pos, 0, s.caps, s.pos);
      } else {
        ScanOptional(m, n, cap, pc, count, max, q + 1, x);
        var r := GreedyScan(m, pc, s.pos, max, q);
        assert r == GreedyScan(m, pc, x.pos, max, q + 1);
        BackByMore(inp, count, r.pos, r.count - q - 1);
        GiveBackMore(inp, count, r.pos, r.count - q - 1, s.caps, s.pos);
      }
    }
  }

  lemma GiveBackOne(inp: Input, n: nat, p: nat, caps: seq<int>)
    requires p <= |inp.units|
    ensures GiveBack(inp, n, p, 0, caps) == [State(p, caps)]
  {
  }

  /** One unfolding of the optional iterations of an atom with at most one outcome. */
  lemma OptionalOnce(m: Machine, n: Node, cap: nat, k: int, unb: bool, s: State)
    requires k > 0 || unb
    requires var xs := Outcomes(m.e, n, false, cap,
                                s); xs == [] || (|xs| == 1 && Advanced(m.e.inp, false, s.pos, xs[0]))
    ensures var xs := Outcomes(m.e, n, false, cap, s);
      Optional(m.e, n, false, cap, k, unb, true, s)
      == (if xs == [] then [] else Optional(m.e, n, false, cap, k - 1, unb, true, xs[0])) + [s]
  {
    var inp, xs := m.e.inp, Outcomes(m.e, n, false, cap, s);
    hide Outcomes;
    AdvancingAll(inp, false, s.pos, xs);
    var bound := Remaining(inp, false, s.pos);
    if xs == [] {
      assert OptionalBelow(m.e, n, false, cap, k - 1, unb, true, bound, xs) == [];
    } else {
      assert xs[1..] == [];
      assert OptionalBelow(m.e, n, false, cap, k - 1, unb, true, bound, xs)
             == Optional(m.e, n, false, cap, k - 1, unb, true, xs[0]) + [];
    }
  }

  /** Below the minimum, failing is failing for good. */
  lemma {:induction false} ScanMandatory(m: Machine, n: Node, cap: nat, pc: nat, count: nat, min: int, max: int,
                                         q: nat, s: State)
    requires SimpleAtom(m, n, cap, pc, count) && Ok(m.e, s) && q < min <= max
    ensures var r := GreedyScan(m, pc, s.pos, max, q);
      && r.Scan? && q <= r.count && r.pos <= |m.e.inp.units| && m.e.inp.Boundary(r.pos)
      && (min <= r.count ==> BackBy(m.e.inp, count, r.pos, r.count - min) >= 0)
      && OptionalFromAll(m.e, n, false, cap, max - min, max == INFINITE, true,
                         Mandatory(m.e, n, false, cap, min - q, s))
         == if r.count < min then [] else GiveBack(m.e.inp, count, r.pos, r.count - min, s.caps)
    decreases |m.e.inp.units| - s.pos
  {
    hide Outcomes;
    hide AtomRun;
    hide Code;
    hide Optional;
    hide Mandatory;
    hide OptionalFromAll;
    hide GiveBack;
    AtomOnce(m, n, cap, pc, count, s);
    MandatoryOnce(m, n, cap, min - q, max - min, max == INFINITE, s);
    var xs := Outcomes(m.e, n, false, cap, s);
    if xs != [] {
      var x := xs[0];
      if q + 1 < min {
        ScanMandatory(m, n, cap, pc, count, min, max, q + 1, x);
      } else if max <= q + 1 && max != INFINITE {
        OptionalZero(m.e, n, cap, x);
        GiveBackOne(m.e.inp, count, x.pos, s.caps);
      } else {
        ScanOptional(m, n, cap, pc, count, max, q + 1, x);
      }
    }
  }

  /** One unfolding of the mandatory iterations of an atom with at most one outcome. */
  lemma MandatoryOnce(m: Machine, n: Node, cap: nat, j: nat, k: int, unb: bool, s: State)
    requires j > 0
    requires |Outcomes(m.e, n, false, cap, s)| <= 1
    ensures var xs := Outcomes(m.e, n, false, cap, s);
      OptionalFromAll(m.e, n, false, cap, k, unb, true, Mandatory(m.e, n, false, cap, j, s))
      == if xs == [] then []
         else if j == 1 then Optional(m.e, n, false, cap, k, unb, true, xs[0])
         else OptionalFromAll(m.e, n, false, cap, k, unb, true, Mandatory(m.e, n, false, cap, j - 1, xs[0]))
  {
    var xs := Outcomes(m.e, n, false, cap, s);
    hide Outcomes;
    hide Optional;
    var ms := Mandatory(m.e, n, false, cap, j, s);
    assert ms == MandatoryFromAll(m.e, n, false, cap, j - 1, xs);
    if xs != [] {
      assert MandatoryFromAll(m.e, n, false, cap, j - 1, xs[1..]) == [];
      var rest := Mandatory(m.e, n, false, cap, j - 1, xs[0]);
      assert ms == rest + [] == rest;
      if j == 1 {
        var ys := Optional(m.e, n, false, cap, k, unb, true, xs[0]);
        assert rest == [xs[0]] && rest[1..] == [];
        assert OptionalFromAll(m.e, n, false, cap, k, unb, true, rest) == ys + [] == ys;
      }
    }
  }

  lemma OptionalZero(e: Env, n: Node, cap: nat, x: State)
    ensures Optional(e, n, false, cap, 0, false, true, x) == [x]
  {
  }

  /** The entry REOP_simple_greedy_quant at `pc` pushes: `c` give-back steps left from `p`. */
  function GreedyEntry(pc: int, p: nat, c: nat, caps: seq<int>, stk: seq<int>): Saved {
    Saved(GreedyQuantState, pc + 1, p, caps, stk, c)
  }

  /** The operands the give-back step reads. */
  lemma QuantAt(bc: seq<byte>, pc: nat, d: int, min: int, max: int, n: int)
    requires CodeAt(bc, pc, [SimpleGreedyQuant(d, min, max, n)]) && Encodable(SimpleGreedyQuant(d, min, max, n))
    ensures pc + 17 <= |bc| && AsInt(GetU32(bc, pc + 1)) == d && GetU32(bc, pc + 13) == n
  {
    var i := SimpleGreedyQuant(d, min, max, n);
    hide *;
    CodeAtOne(bc, pc, i);
    DecodeQuant(bc, pc, i);
  }

  /** One give-back step. */
  lemma AtGiveBack(m: Machine, pc: nat, d: int, min: int, max: int, n: nat, p: nat, c: nat, caps: seq<int>,
                   stk: seq<int>, k: seq<Saved>)
    requires CodeAt(m.bc, pc, [SimpleGreedyQuant(d, min, max, n)]) && Encodable(SimpleGreedyQuant(d, min, max, n))
    requires p <= |m.e.inp.units| && c > 0 && m.e.inp.PrevN(p, n) >= 0
    ensures var q := m.e.inp.PrevN(p, n);
      Reaches(m, Fail(k + [GreedyEntry(pc, p, c, caps, stk)]),
              Run(pc + 17 + d, State(q, caps), stk, if c == 1 then k else k + [GreedyEntry(pc, q, c - 1, caps, stk)]))
  {
    QuantAt(m.bc, pc, d, min, max, n);
    var e := GreedyEntry(pc, p, c, caps, stk);
    assert (k + [e])[..|k + [e]| - 1] == k && (k + [e])[|k + [e]| - 1] == e;
    hide Decode;
    hide CodeAt;
    hide Reaches;
    hide AsInt;
    hide GetU32;
    hide Input.PrevN;
    ReachesStep(m, Fail(k + [e]));
  }

  /** Backtracking into a greedy entry delivers the positions `GiveBack` lists. */
  lemma {:induction false} DeliversGiveBack(m: Machine, pc: nat, d: int, min: int, max: int, n: nat, p: nat, c: nat,
                                            caps: seq<int>, stk: seq<int>, k: seq<Saved>) returns (t: Trail)
    requires CodeAt(m.bc, pc, [SimpleGreedyQuant(d, min, max, n)]) && Encodable(SimpleGreedyQuant(d, min, max, n))
    requires p <= |m.e.inp.units| && BackBy(m.e.inp, n, p, c) >= 0
    ensures Delivers(m, Run(pc + 17 + d, State(p, caps), stk,
                            if c == 0 then k else k + [GreedyEntry(pc, p, c, caps, stk)]),
                     GiveBack(m.e.inp, n, p, c, caps), pc + 17 + d, stk, k, t)
    decreases c
  {
    hide Delivers;
    hide CodeAt;
    hide Reaches;
    var exit, x := pc + 17 + d, State(p, caps);
    if c == 0 {
      ReachesRefl(m, Run(exit, x, stk, k));
      DeliversOne(m, Run(exit, x, stk, k), x, exit, stk, k);
      GiveBackOne(m.e.inp, n, p, caps);
      t := [[]];
    } else {
      var e, q := GreedyEntry(pc, p, c, caps, stk), m.e.inp.PrevN(p, n);
      BackByNegative(m.e.inp, n, p, c);
      var rest := GiveBack(m.e.inp, n, q, c - 1, caps);
      assert GiveBack(m.e.inp, n, p, c, caps) == [x] + rest;
      t := DeliversGiveBack(m, pc, d, min, max, n, q, c - 1, caps, stk, k);
      var c1 := Run(exit, State(q, caps), stk, if c == 1 then k else k + [GreedyEntry(pc, q, c - 1, caps, stk)]);
      AtGiveBack(m, pc, d, min, max, n, p, c, caps, stk, k);
      DeliversFrom(m, Fail(k + [e]), c1, rest, exit, stk, k, t);
      ReachesRefl(m, Run(exit, x, stk, k + [e]));
      DeliversCons(m, Run(exit, x, stk, k + [e]), x, rest, exit, stk, k, [e], t);
      t := [[e]] + t;
    }
  }

  lemma BackByNegative(inp: Input, n: nat, p: nat, c: nat)
    requires p <= |inp.units| && c > 0
    ensures inp.PrevN(p, n) < 0 ==> BackBy(inp, n, p, c) < 0
  {
    assert BackBy(inp, n, p, c) == BackBy(inp, n, inp.PrevN(p, n), c - 1);
  }

  /** The whole scan from iteration 0 against the meaning of the repeat. */
  lemma ScanRepeat(m: Machine, n: Node, cap: nat, pc: nat, count: nat, min: int, max: int, s: State)
    requires SimpleAtom(m, n, cap, pc, count) && Ok(m.e, s) && 0 <= min <= max && 0 < max
    ensures var r := GreedyScan(m, pc, s.pos, max, 0);
      && r.Scan? && r.pos <= |m.e.inp.units|
      && (min <= r.count ==> BackBy(m.e.inp, count, r.pos, r.count - min) >= 0)
      && OptionalFromAll(m.e, n, false, cap, max - min, max == INFINITE, true,
                         if min == 0 then [s] else Mandatory(m.e, n, false, cap, min, s))
         == if r.count < min then [] else GiveBack(m.e.inp, count, r.pos, r.count - min, s.caps)
  {
    hide Optional;
    hide GiveBack;
    hide GreedyScan;
    hide SimpleAtom;
    hide Ok;
    if min > 0 {
      hide OptionalFromAll;
      ScanMandatory(m, n, cap, pc, count, min, max, 0, s);
    } else {
      ScanOptional(m, n, cap, pc, count, max, 0, s);
      var xs := Optional(m.e, n, false, cap, max, max == INFINITE, true, s);
      assert [s][1..] == [];
      assert OptionalFromAll(m.e, n, false, cap, max - min, max == INFINITE, true, [s]) == xs + [] == xs;
    }
  }

  /** REOP_simple_greedy_quant delivers exactly the outcomes of the repeat it stands for. */
  lemma SimpleQuantCorrect(m: Machine, n: Node, cap: nat, pc: nat, d: int, count: nat, min: int, max: int,
                           s: State, stk: seq<int>, k: seq<Saved>) returns (t: Trail)
    requires SimpleAtom(m, n, cap, pc + 17, count) && Ok(m.e, s) && 0 <= min <= max && 0 < max
    requires CodeAt(m.bc, pc, [SimpleGreedyQuant(d, min, max, count)])
    requires Encodable(SimpleGreedyQuant(d, min, max, count))
    ensures Delivers(m, Run(pc, s, stk, k),
                     OptionalFromAll(m.e, n, false, cap, max - min, max == INFINITE, true,
                                     if min == 0 then [s] else Mandatory(m.e, n, false, cap, min, s)),
                     pc + 17 + d, stk, k, t)
  {
    hide Delivers;
    hide Optional;
    hide OptionalFromAll;
    hide Mandatory;
    hide GiveBack;
    hide GreedyScan;
    hide SimpleAtom;
    hide Ok;
    hide BackBy;
    hide CodeAt;
    hide Reaches;
    var c := Run(pc, s, stk, k);
    ScanRepeat(m, n, cap, pc + 17, count, min, max, s);
    AtQuant(m, pc, d, min, max, count, s, stk, k);
    var r := GreedyScan(m, pc + 17, s.pos, max, 0);
    if r.count < min {
      DeliversNone(m, k, pc + 17 + d, stk);
      DeliversFrom(m, c, Fail(k), [], pc + 17 + d, stk, k, []);
      t := [];
    } else {
      var j := r.count - min;
      t := DeliversGiveBack(m, pc, d, min, max, count, r.pos, j, s.caps, stk, k);
      var c1 := Run(pc + 17 + d, State(r.pos, s.caps), stk,
                    if j == 0 then k else k + [GreedyEntry(pc, r.pos, j, s.caps, stk)]);
      DeliversFrom(m, c, c1, GiveBack(m.e.inp, count, r.pos, j, s.caps), pc + 17 + d, stk, k, t);
    }
  }

  lemma AtQuant(m: Machine, pc: nat, d: int, min: int, max: int, count: int, s: State, stk: seq<int>, k: seq<Saved>)
    requires CodeAt(m.bc, pc, [SimpleGreedyQuant(d, min, max, count)])
    requires Encodable(SimpleGreedyQuant(d, min, max, count))
    requires GreedyScan(m, pc + 17, s.pos, max, 0).Scan?
    ensures var r := GreedyScan(m, pc + 17, s.pos, max, 0);
      Reaches(m, Run(pc, s, stk, k),
              if r.count < min then Fail(k)
              else Run(pc + 17 + d, State(r.pos, s.caps), stk,
                       if r.count == min then k else k + [GreedyEntry(pc, r.pos, r.count - min, s.caps, stk)]))
  {
    hide *;
    var i := SimpleGreedyQuant(d, min, max, count);
    QuantSize(i);
    StepAt(m, i, Run(pc, s, stk, k));
    QuantEffect(m, pc, d, min, max, count, s, stk, k);
  }

  lemma QuantEffect(m: Machine, pc: nat, d: int, min: int, max: int, count: int, s: State, stk: seq<int>,
      k: seq<Saved>)
    requires GreedyScan(m, pc + 17, s.pos, max, 0).Scan?
    ensures var r := GreedyScan(m, pc + 17, s.pos, max, 0);
      StepInstr(m, SimpleGreedyQuant(d, min, max, count), pc + 17, s, stk, k)
      == if r.count < min then Fail(k)
         else Run(pc + 17 + d, State(r.pos, s.caps), stk,
                  if r.count == min then k else k + [GreedyEntry(pc, r.pos, r.count - min, s.caps, stk)])
  {
    hide GreedyScan;
  }

  lemma QuantSize(i: Instr)
    requires i.SimpleGreedyQuant?
    ensures Size(i) == 17
  {
  }
}
