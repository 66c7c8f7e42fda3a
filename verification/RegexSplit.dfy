/** Where a match may start. The step that gives a character back assumes it stands where a character ends, but
    `lre_exec` does not check where it starts. From the middle of a surrogate pair some pattern goes wrong. */
module RegexSplit {
  import opened Bytes
  import opened Instructions
  import opened MatchInput
  import opened RegexSemantics
  import opened RegexFacts
  import opened RegexCode
  import opened RegexAnalysis
  import opened RegexMachine
  import opened RegexOps
  import opened RegexGreedy
  import opened RegexCorrect
  import opened RegexMatch
  import opened RegexLayout
  import opened RegexSize
  import opened RegexQuantify

  /** The run from `p` ends with what the pattern means there. */
  ghost predicate Right(m: Machine, n: Node, sticky: bool, p: nat) {
    Reaches(m, Run(0, Start(m.e, p), [], []), Final(AllMatches(m.e, n, sticky, p)))
  }

  /** `u?u{j}`. */
  function Probe(u: int, j: int): Node {
    Cat(Repeat(Char(u), 0, 1, true), Times(u, j))
  }

  function Times(u: int, j: int): Node {
    Repeat(Char(u), j, j, true)
  }

  /** How many characters `u` there are from `p` on. */
  function Count(inp: Input, u: int, p: nat): (c: nat)
    ensures p <= |inp.units| ==> c <= |inp.units| - p
    decreases if p <= |inp.units| then |inp.units| - p else 0
  {
    if p < |inp.units| && inp.CharAt(p) == u then 1 + Count(inp, u, inp.Next(p)) else 0
  }

  // ----- What the pattern means -----

  lemma OneMore(e: Env, u: int, cap: nat, s: State)
    ensures Outcomes(e, Char(u), false, cap, s)
         == if s.pos < |e.inp.units| && e.inp.CharAt(s.pos) == u then [State(e.inp.Next(s.pos), s.caps)] else []
  {
  }

  /** `j` times a character takes `j` of them. */
  lemma {:induction false} TimesMeans(e: Env, u: int, cap: nat, j: nat, s: State)
    ensures Mandatory(e, Char(u), false, cap, j, s) == [] <==> Count(e.inp, u, s.pos) < j
    decreases j
  {
    if j > 0 {
      OneMore(e, u, cap, s);
      var xs := Outcomes(e, Char(u), false, cap, s);
      hide Outcomes;
      if xs != [] {
        TimesMeans(e, u, cap, j - 1, xs[0]);
        assert MandatoryFromAll(e, Char(u), false, cap, j - 1, xs[1..]) == [];
      }
    }
  }

  lemma TimesOutcomes(e: Env, u: int, cap: nat, j: nat, s: State)
    requires 0 < j < INFINITE
    ensures Outcomes(e, Times(u, j), false, cap, s) == [] <==> Count(e.inp, u, s.pos) < j
  {
    TimesMeans(e, u, cap, j, s);
    FromNone(e, Char(u), false, cap, true, Mandatory(e, Char(u), false, cap, j, s));
    hide Mandatory;
  }

  /** The optional character comes first, then the state itself. */
  lemma OptionalOutcomes(m: Machine, u: int, cap: nat, s: State)
    requires s.pos < |m.e.inp.units| && m.e.inp.CharAt(s.pos) == u
    ensures Outcomes(m.e, Repeat(Char(u), 0, 1, true), false, cap, s)
         == [State(m.e.inp.Next(s.pos), s.caps)] + [s]
  {
    OneMore(m.e, u, cap, s);
    var n := Char(u);
    OptionalOnce(m, n, cap, 1, false, s);
    OptionalZero(m.e, n, cap, State(m.e.inp.Next(s.pos), s.caps));
    hide Optional;
    hide Outcomes;
    OptionalAlone(m.e, u, cap, s);
  }

  lemma OptionalAlone(e: Env, u: int, cap: nat, s: State)
    ensures Outcomes(e, Repeat(Char(u), 0, 1, true), false, cap, s)
         == Optional(e, Char(u), false, cap, 1, false, true, s)
  {
    hide Optional;
    var xs := Optional(e, Char(u), false, cap, 1, false, true, s);
    NoReset(s.caps, cap, cap + Groups(Char(u)) - 1);
    assert [s][1..] == [];
    assert OptionalFromAll(e, Char(u), false, cap, 1, false, true, [s]) == xs + [] == xs;
  }

  /** If the `j` characters begin at the start, the pattern means a match. */
  lemma ProbeMatches(m: Machine, u: int, j: nat, p: nat)
    requires p < |m.e.inp.units| && m.e.inp.CharAt(p) == u && 0 < j < INFINITE && Count(m.e.inp, u, p) >= j
    ensures AllMatches(m.e, Probe(u, j), true, p) != []
  {
    hide *;
    var s := Opened(false, 0, Start(m.e, p));
    ProbeIs(m.e, u, j, p);
    OpenedAt(m.e, p);
    CatOutcomes(m.e, Probe(u, j), false, 1, s);
    OptionalOutcomes(m, u, 1, s);
    TimesOutcomes(m.e, u, 1, j, s);
    FromTwo(m.e, Times(u, j), 1, State(m.e.inp.Next(p), s.caps), s);
  }

  lemma ProbeIs(e: Env, u: int, j: int, p: nat)
    ensures Probe(u, j).Cat? && Probe(u, j).left == Repeat(Char(u), 0, 1, true) && Probe(u, j).right == Times(u, j)
    ensures Groups(Probe(u, j).left) == 0 && Groups(Probe(u, j)) == 0
    ensures AllMatches(e, Probe(u, j), true, p) == []
        <==> Outcomes(e, Probe(u, j), false, 1, Opened(false, 0, Start(e, p))) == []
  {
    var xs := Outcomes(e, Probe(u, j), false, 1, Opened(false, 0, Start(e, p)));
    assert AllMatches(e, Probe(u, j), true, p) == AllClosed(false, 0, xs);
  }

  lemma OpenedAt(e: Env, p: nat)
    ensures Opened(false, 0, Start(e, p)).pos == p
  {
  }

  lemma FromTwo(e: Env, n: Node, cap: nat, x: State, y: State)
    ensures Outcomes(e, n, false, cap, y) != [] ==> FromAll(e, n, false, cap, [x] + [y]) != []
  {
    hide Outcomes;
    assert ([x] + [y])[1..] == [y];
    assert FromAll(e, n, false, cap, [y]) == Outcomes(e, n, false, cap, y) + FromAll(e, n, false, cap, [y][1..]);
  }

  // ----- What the run does -----

  /** The scan of `j` times a character fails where there are fewer. */
  lemma TimesFails(m: Machine, u: int, cap: nat, pc: nat, j: nat, s: State, k: seq<Saved>)
    requires Placed(m, Times(u, j), false, cap, pc) && 0 < j < INFINITE
    requires m.e.inp.Boundary(s.pos) && Count(m.e.inp, u, s.pos) < j
    ensures Reaches(m, Run(pc, s, [], k), Fail(k))
  {
    hide *;
    PlacedOpen(m, Times(u, j), false, cap, pc);
    TimesIs(u, j, cap);
    var l, count := GreedyParts(m, Times(u, j), cap, pc);
    var s1 := Start(m.e, s.pos);
    StartOk(m.e, s.pos);
    StartAt(m.e, s.pos);
    TimesMeans(m.e, u, cap, j, s1);
    ScanMandatory(m, Char(u), cap, pc + 17, count, j, j, 0, s1);
    FromNone(m.e, Char(u), false, cap, true, Mandatory(m.e, Char(u), false, cap, j, s1));
    AtQuant(m, pc, l + 1, j, j, count, s, [], k);
    var r := GreedyScan(m, pc + 17, s.pos, j, 0);
    if r.count >= j {
      GiveBackSome(m.e.inp, count, r.pos, r.count - j, s1.caps);
    }
  }

  lemma GiveBackSome(inp: Input, n: nat, p: nat, c: nat, caps: seq<int>)
    requires p <= |inp.units|
    ensures GiveBack(inp, n, p, c, caps) != []
  {
  }

  lemma StartAt(e: Env, p: nat)
    ensures Start(e, p).pos == p
  {
  }

  lemma TimesIs(u: int, j: int, cap: nat)
    ensures var n := Times(u, j);
      n.Repeat? && n.body == Char(u) && n.min == n.max == j && n.greedy
    ensures WellFormed(Times(u, j)) ==> 0 <= u < 0x110000
    ensures 0 <= u < 0x110000 && j > 0 ==> IsSimpleRepeat(Code(Char(u), false, cap), j, true)
  {
    assert WellFormed(Char(u)) == (0 <= u < 0x110000);
    if 0 <= u < 0x110000 {
      assert Code(Char(u), false, cap) == [CharInstr(u)];
      SimpleOne(CharInstr(u));
    }
  }

  /** The scan takes one character and no more. */
  lemma OptionalScan(m: Machine, u: int, cap: nat, pc: nat, count: nat, p: nat)
    requires SimpleAtom(m, Char(u), cap, pc, count) && p < |m.e.inp.units| && m.e.inp.CharAt(p) == u
    ensures count == 1 && GreedyScan(m, pc, p, 1, 0) == Scan(1, m.e.inp.Next(p))
  {
    hide *;
    var i, next := CharInstr(u), m.e.inp.Next(p);
    CharAtom(m, u, cap, pc, count);
    CharNodeEncodable(Char(u));
    CodeSplit(m.bc, pc, [i], [Match]);
    NotMatch(u);
    AtomRunOne(m, i, pc, p);
    CharMove(m.e, u, p);
    AtomMatch(m, pc + Length([i]), next);
    ScanOnce(m, pc, p, next);
  }

  lemma CharAtom(m: Machine, u: int, cap: nat, pc: nat, count: nat)
    requires SimpleAtom(m, Char(u), cap, pc, count)
    ensures WellFormed(Char(u)) && IsOneChar(Char(u)) && CharNodeInstr(Char(u)) == CharInstr(u) && count == 1
    ensures CodeAt(m.bc, pc, [CharInstr(u)] + [Match])
  {
    assert Code(Char(u), false, cap) == [CharInstr(u)];
    SimpleOne(CharInstr(u));
    hide CodeAt;
  }

  lemma NotMatch(u: int)
    ensures !CharInstr(u).Match?
  {
  }

  lemma CharMove(e: Env, u: int, p: nat)
    requires p < |e.inp.units| && e.inp.CharAt(p) == u
    ensures AtomMove(e, CharInstr(u), p) == e.inp.Next(p)
  {
  }

  lemma ScanOnce(m: Machine, pc: nat, p: nat, next: nat)
    requires AtomRun(m, pc, p) == next
    ensures GreedyScan(m, pc, p, 1, 0) == Scan(1, next)
  {
    hide AtomRun;
  }

  /** What stands around the middle of a pair. */
  lemma AroundSplit(inp: Input, p: nat)
    requires p <= |inp.units| && !inp.Boundary(p)
    ensures 0 < p < |inp.units| && inp.CharAt(p) == inp.units[p] && IsLo(inp.units[p]) && inp.Next(p) == p + 1
    ensures inp.Boundary(p + 1) && inp.Boundary(p - 1) && inp.PrevN(p + 1, 1) == p - 1
    ensures Count(inp, inp.units[p], p) == 1 + Count(inp, inp.units[p], p + 1)
    ensures Count(inp, inp.units[p], p - 1) == 0
  {
    assert inp.Pair(p - 1) && !inp.Pair(p);
    assert inp.Prev(p + 1) == p - 1 && inp.PrevN(p - 1, 0) == p - 1;
    assert inp.CharAt(p - 1) >= 0x10000;
  }

  /** The run takes the low half, fails, gives the whole pair back and fails again. */
  lemma ProbeFails(m: Machine, j: nat, p: nat)
    requires p <= |m.e.inp.units| && !m.e.inp.Boundary(p) && p < |m.e.inp.units|
    requires Loaded(m, Probe(m.e.inp.units[p], j), true) && Count(m.e.inp, m.e.inp.units[p], p) == j < INFINITE
    ensures Reaches(m, Run(0, Start(m.e, p), [], []), Done(false, []))
  {
    hide *;
    var u := m.e.inp.units[p];
    var n := Probe(u, j);
    AroundSplit(m.e.inp, p);
    ProbeIs(m.e, u, j, p);
    TimesIs(u, 1, 1);
    var body, l0 := ProgramParts(m, n, true);
    var l := CaptureParts(m, Capture(n), false, 0, 0);
    CatPlaced(m, n, false, 1, 2);
    PlacedOpen(m, n.right, false, 1, End(n.left, false, 1, 2));
    TimesIs(u, j, 1);
    var l1, count := GreedyParts(m, n.left, 1, 2);
    var exit := 2 + 17 + (l1 + 1);
    OptionalScan(m, u, 1, 19, count, p);
    var s := Start(m.e, p);
    var caps := SetCap(s.caps, 0, p);
    StartAt(m.e, p);
    AtSave(m, 0, SaveStart(0), s, [], []);
    AtQuant(m, 2, l1 + 1, 0, 1, 1, State(p, caps), [], []);
    var e := GreedyEntry(2, p + 1, 1, caps, []);
    TimesFails(m, u, 1, exit, j, State(p + 1, caps), [e]);
    AtGiveBack(m, 2, l1 + 1, 0, 1, 1, p + 1, 1, caps, [], []);
    TimesFails(m, u, 1, exit, j, State(p - 1, caps), []);
    LastFail(m);
    assert [] + [e] == [e];
    Chain(m, [Run(0, s, [], []), Run(2, State(p, caps), [], []), Run(exit, State(p + 1, caps), [], [e]), Fail([e]),
              Run(exit, State(p - 1, caps), [], []), Fail([]), Done(false, [])]);
  }

  lemma LastFail(m: Machine)
    ensures Reaches(m, Fail([]), Done(false, []))
  {
    ReachesStep(m, Fail([]));
  }

  lemma {:induction false} Chain(m: Machine, cs: seq<Config>)
    requires |cs| > 0 && forall i :: 0 < i < |cs| ==> Reaches(m, cs[i - 1], cs[i])
    ensures Reaches(m, cs[0], cs[|cs| - 1])
    decreases |cs|
  {
    hide Reaches;
    var last := |cs| - 1;
    if last == 0 {
      ReachesRefl(m, cs[0]);
    } else {
      Chain(m, cs[..last]);
      assert Reaches(m, cs[last - 1], cs[last]);
      ReachesTrans(m, cs[0], cs[last - 1], cs[last]);
    }
  }

  // ----- The two together -----

  lemma {:induction false} DoneStays(m: Machine, matched: bool, caps: seq<int>, n: nat)
    ensures Steps(m, Done(matched, caps), n) == Done(matched, caps)
  {
    if n > 0 {
      DoneStays(m, matched, caps, n - 1);
    }
  }

  /** A run has one verdict. */
  lemma OneVerdict(m: Machine, c: Config, d: Config, f: Config)
    requires d.Done? && f.Done? && Reaches(m, c, d) && Reaches(m, c, f)
    ensures d == f
  {
    var i: nat :| Steps(m, c, i) == d;
    var j: nat :| Steps(m, c, j) == f;
    hide Step;
    if i <= j {
      StepsAdd(m, c, i, j - i);
      DoneStays(m, d.matched, d.caps, j - i);
    } else {
      StepsAdd(m, c, j, i - j);
      DoneStays(m, f.matched, f.caps, i - j);
    }
  }

  /** The program of the probe, ready to run. */
  ghost function ProbeMachine(inp: Input, u: int, j: nat): Machine
    requires WellFormed(Probe(u, j))
  {
    Machine(Assemble(Program(Probe(u, j), true)), Env(inp, false, 1))
  }

  lemma ProbeLoaded(inp: Input, u: int, j: nat)
    requires IsLo(u) && 0 < j < INFINITE
    ensures WellFormed(Probe(u, j))
    ensures Loaded(ProbeMachine(inp, u, j), Probe(u, j), true) && ProbeMachine(inp, u, j).e.inp == inp
  {
    hide *;
    ProbeFits(u, j);
    ProgramMeasured(Probe(u, j), true);
    AssembledLength(Program(Probe(u, j), true));
    ProbeSize(u, j);
    SmallProgram(|Assemble(Program(Probe(u, j), true))|);
    LoadedIs(inp, u, j);
  }

  lemma ProbeFits(u: int, j: nat)
    requires IsLo(u) && 0 < j < INFINITE
    ensures WellFormed(Probe(u, j))
  {
    assert WellFormed(Char(u)) && WellFormed(Times(u, j)) && WellFormed(Repeat(Char(u), 0, 1, true));
  }

  lemma RepeatSize(u: int, min: int, max: int)
    requires IsLo(u) && max > 0
    ensures Measure(Repeat(Char(u), min, max, true), false).size == 21
  {
    hide *;
    MeasureIs(Repeat(Char(u), min, max, true), false);
    LowMeasure(u);
    SimpleExtent(Groups(Char(u)), min, max);
  }

  lemma LowMeasure(u: int)
    requires IsLo(u)
    ensures Measure(Char(u), false) == CharExtent(3)
  {
  }

  lemma SimpleExtent(groups: nat, min: int, max: int)
    requires max > 0
    ensures RepeatExtent(CharExtent(3), groups, min, max, true).size == 21
  {
    assert RepeatExtent(CharExtent(3), groups, min, max, true) == Join(Jump(17, 0), Join(CharExtent(3), Jump(1, 0)));
  }

  lemma ProbeSize(u: int, j: nat)
    requires IsLo(u) && 0 < j < INFINITE
    ensures ProgramExtent(Probe(u, j), true).size == 47
  {
    var n := Probe(u, j);
    MeasureIs(Capture(n), false);
    MeasureIs(n, false);
    RepeatSize(u, 0, 1);
    RepeatSize(u, j, j);
    hide Measure;
  }

  lemma LoadedIs(inp: Input, u: int, j: nat)
    requires WellFormed(Probe(u, j)) && |Assemble(Program(Probe(u, j), true))| < TWO_TO_THE_31
    ensures Loaded(ProbeMachine(inp, u, j), Probe(u, j), true) && ProbeMachine(inp, u, j).e.inp == inp
  {
    ProbeIs(Env(inp, false, 1), u, j, 0);
    hide Assemble;
    hide Program;
    hide WellFormed;
    hide Groups;
  }

  lemma SmallProgram(n: nat)
    requires n == 47
    ensures n < TWO_TO_THE_31
  {
  }

  /** Started inside a surrogate pair, some pattern goes wrong. */
  lemma WrongInside(inp: Input, p: nat) returns (m: Machine, n: Node)
    requires p <= |inp.units| < INFINITE && !inp.Boundary(p)
    ensures m.e.inp == inp && Loaded(m, n, true) && !Right(m, n, true, p)
  {
    hide *;
    AroundSplit(inp, p);
    var u := inp.units[p];
    var j := Count(inp, u, p);
    ProbeLoaded(inp, u, j);
    m, n := ProbeMachine(inp, u, j), Probe(u, j);
    ProbeMatches(m, u, j, p);
    ProbeFails(m, j, p);
    RightIs(m, n, true, p);
    if Right(m, n, true, p) {
      OneVerdict(m, Run(0, Start(m.e, p), [], []), Done(false, []), Final(AllMatches(m.e, n, true, p)));
    }
  }

  lemma RightIs(m: Machine, n: Node, sticky: bool, p: nat)
    ensures var c := Final(AllMatches(m.e, n, sticky, p));
      && (Right(m, n, sticky, p) <==> Reaches(m, Run(0, Start(m.e, p), [], []), c))
      && c.Done? && (AllMatches(m.e, n, sticky, p) != [] ==> c.matched)
  {
    hide AllMatches;
    hide Reaches;
  }

  /** For every input and every start: all patterns match as they mean if and only if the start is not inside a
      surrogate pair. */
  lemma StartCondition(inp: Input, p: nat)
    requires p <= |inp.units| < INFINITE
    ensures (forall m: Machine, n: Node, sticky: bool ::
               Loaded(m, n, sticky) && m.e.inp == inp ==> Right(m, n, sticky, p))
            <==> inp.Boundary(p)
  {
    hide *;
    if inp.Boundary(p) {
      forall m: Machine, n: Node, sticky: bool | Loaded(m, n, sticky) && m.e.inp == inp
        ensures Right(m, n, sticky, p)
      {
        MatchCorrect(m, n, sticky, p);
        RightIs(m, n, sticky, p);
      }
    } else {
      var m, n := WrongInside(inp, p);
    }
  }

  /** A repeat counted by a number the parser does not use for "no upper bound" takes exactly so many. */
  lemma CountedLaw(e: Env, u: int, cap: nat, j: nat, s: State)
    requires 0 < j < 0x7FFF_FFFF
    ensures Outcomes(e, Repeat(Char(u), j, j, true), false, cap, s) == [] <==> Count(e.inp, u, s.pos) < j
  {
    TimesOutcomes(e, u, cap, j, s);
    hide Outcomes, Count;
  }
}
