/** The theorem about whole programs: for every pattern and input, execution of the compiled
    program ends, and ends with the first match of the ordered-choice semantics. */
module RegexMatch {
  import opened Bytes
  import opened Instructions
  import opened MatchInput
  import opened RegexSemantics
  import opened RegexFacts
  import opened RegexCode
  import opened RegexMachine
  import opened RegexDelivery
  import opened RegexOps
  import opened RegexCompose
  import opened RegexCorrect

  /** The compiled program and the context `lre_exec` sets up for it. */
  ghost predicate Loaded(m: Machine, n: Node, sticky: bool) {
    && WellFormed(n)
    && m.e.groups == 1 + Groups(n) <= 255
    && m.bc == Assemble(Program(n, sticky))
    && |m.bc| < TWO_TO_THE_31
  }

  function NoCaptures(groups: nat): (caps: seq<int>)
    ensures |caps| == 2 * groups && forall i :: 0 <= i < |caps| ==> caps[i] == -1
  {
    seq(2 * groups, i => -1)
  }

  function Start(e: Env, p: nat): State {
    State(p, NoCaptures(e.groups))
  }

  /** What the reference semantics says of a match attempt at `p`: all matches, best first. */
  function AllMatches(e: Env, n: Node, sticky: bool, p: nat): seq<State> {
    if sticky then Outcomes(e, Capture(n), false, 0, Start(e, p)) else Search(e, n, Start(e, p))
  }

  function Final(xs: seq<State>): Config {
    if xs == [] then Done(false, []) else Done(true, xs[0].caps)
  }

  /** Where the body of the program and its final instruction stand. */
  lemma ProgramParts(m: Machine, n: Node, sticky: bool) returns (body: nat, l: nat)
    requires Loaded(m, n, sticky)
    ensures body == (if sticky then 0 else 11)
    ensures Placed(m, Capture(n), false, 0, body) && WellFormed(Capture(n))
    ensures End(Capture(n), false, 0, body) == body + l
    ensures CodeAt(m.bc, body + l, [Match])
    ensures !sticky ==> CodeAt(m.bc, 0, [SplitGotoFirst(6)]) && CodeAt(m.bc, 5, [Any]) && CodeAt(m.bc, 6, [Goto(-11)])
  {
    hide *;
    ProgramCode(m, n, sticky);
    var c := Code(Capture(n), false, 0);
    l := Length(c);
    body := if sticky then 0 else 11;
    if !sticky {
      CodeSplit(m.bc, 0, SearchPrefix(), c + [Match]);
      PrefixParts(m.bc);
    }
    CodeSplit(m.bc, body, c, [Match]);
    PlacedClose(m, Capture(n), false, 0, body);
  }

  lemma ProgramCode(m: Machine, n: Node, sticky: bool)
    requires Loaded(m, n, sticky)
    ensures WellFormed(Capture(n)) && Groups(Capture(n)) == m.e.groups <= 255 && |m.bc| < TWO_TO_THE_31
    ensures var c := Code(Capture(n), false, 0) + [Match];
      CodeAt(m.bc, 0, if sticky then c else SearchPrefix() + c)
  {
    hide Code;
    hide SearchPrefix;
    var body := Code(Capture(n), false, 0) + [Match];
    assert [] + body == body;
    assert m.bc[0..|m.bc|] == m.bc;
  }

  lemma PrefixParts(bc: seq<byte>)
    requires CodeAt(bc, 0, SearchPrefix())
    ensures CodeAt(bc, 0, [SplitGotoFirst(6)]) && CodeAt(bc, 5, [Any]) && CodeAt(bc, 6, [Goto(-11)])
    ensures Length(SearchPrefix()) == 11
  {
    assert SearchPrefix() == [SplitGotoFirst(6)] + [Any] + [Goto(-11)];
    hide *;
    CodeSplit3(bc, 0, [SplitGotoFirst(6)], [Any], [Goto(-11)]);
    Sizes(SplitGotoFirst(6));
    AnyLength();
    Sizes(Goto(-11));
  }

  lemma AnyLength()
    ensures Length([Any]) == 1
  {
    LengthOne(Any);
  }

  /** The search prefix tries the body at each position in turn. */
  lemma {:induction false} SearchCorrect(m: Machine, n: Node, l: nat, s: State, k: seq<Saved>) returns (t: Trail)
    requires Placed(m, Capture(n), false, 0, 11) && WellFormed(Capture(n))
    requires End(Capture(n), false, 0, 11) == 11 + l && Ok(m.e, s)
    requires CodeAt(m.bc, 0, [SplitGotoFirst(6)]) && CodeAt(m.bc, 5, [Any]) && CodeAt(m.bc, 6, [Goto(-11)])
    ensures Delivers(m, Run(0, s, [], k), Search(m.e, n, s), 11 + l, [], k, t)
    decreases |m.e.inp.units| - s.pos
  {
    hide Delivers;
    hide Outcomes;
    hide CodeAt;
    hide Reaches;
    hide Placed;
    hide End;
    var e, xs := Alternative(5, s, []), Outcomes(m.e, Capture(n), false, 0, s);
    AtSplitGotoFirst(m, 0, 6, s, [], k);
    t := NodeCorrect(m, Capture(n), false, 0, 11, s, [], k + [e]);
    AtAny(m, s, k);
    var u: Trail;
    var rest := if s.pos < |m.e.inp.units| then Search(m.e, n, State(m.e.inp.Next(s.pos), s.caps)) else [];
    if s.pos < |m.e.inp.units| {
      var s1 := State(m.e.inp.Next(s.pos), s.caps);
      m.e.inp.PrevNext(s.pos);
      AtGoto(m, 6, -11, s1, [], k);
      ReachesTrans(m, Run(5, s, [], k), Run(6, s1, [], k), Run(0, s1, [], k));
      u := SearchCorrect(m, n, l, s1, k);
      DeliversFrom(m, Run(5, s, [], k), Run(0, s1, [], k), rest, 11 + l, [], k, u);
    } else {
      u := [];
      DeliversNone(m, k, 11 + l, []);
      DeliversFrom(m, Run(5, s, [], k), Fail(k), [], 11 + l, [], k, u);
    }
    t := DeliversSplit(m, Run(0, s, [], k), Run(11, s, [], k + [e]), e, xs, rest, 11 + l, [], k, t, u);
  }

  lemma AtAny(m: Machine, s: State, k: seq<Saved>)
    requires CodeAt(m.bc, 5, [Any]) && s.pos <= |m.e.inp.units|
    ensures Reaches(m, Run(5, s, [], k),
                    if s.pos < |m.e.inp.units| then Run(6, State(m.e.inp.Next(s.pos), s.caps), [], k) else Fail(k))
  {
    StepAt(m, Any, Run(5, s, [], k));
  }

  /** Delivering to the final `match` decides the execution. */
  lemma DeliversVerdict(m: Machine, c: Config, xs: seq<State>, pc: nat, t: Trail)
    requires CodeAt(m.bc, pc, [Match])
    requires Delivers(m, c, xs, pc, [], [], t)
    ensures Reaches(m, c, Final(xs))
  {
    if xs == [] {
      ReachesStep(m, Fail([]));
      ReachesTrans(m, c, Fail([]), Done(false, []));
    } else {
      assert [] + t[0] == t[0];
      AtMatch(m, pc, xs[0], [], t[0]);
      UnwindAll(m, xs[0].caps, t[0]);
      ReachesTrans(m, c, Run(pc, xs[0], [], t[0]), Succeed(xs[0].caps, t[0]));
      ReachesTrans(m, c, Succeed(xs[0].caps, t[0]), Done(true, xs[0].caps));
    }
  }

  /** Compiler correctness and termination: for every pattern, every input and every start at a
      character boundary, execution reaches the verdict of the reference semantics: the captures
      of the first match, or failure when there is none. */
  lemma MatchCorrect(m: Machine, n: Node, sticky: bool, p: nat)
    requires Loaded(m, n, sticky) && m.e.inp.Boundary(p)
    ensures Reaches(m, Run(0, Start(m.e, p), [], []), Final(AllMatches(m.e, n, sticky, p)))
  {
    hide *;
    var body, l := ProgramParts(m, n, sticky);
    var s, t: Trail := Start(m.e, p), [];
    StartOk(m.e, p);
    AllMatchesAre(m.e, n, sticky, p);
    if sticky {
      t := NodeCorrect(m, Capture(n), false, 0, 0, s, [], []);
    } else {
      t := SearchCorrect(m, n, l, s, []);
    }
    DeliversVerdict(m, Run(0, s, [], []), AllMatches(m.e, n, sticky, p), body + l, t);
  }

  lemma StartOk(e: Env, p: nat)
    requires e.inp.Boundary(p)
    ensures Ok(e, Start(e, p))
  {
  }

  lemma AllMatchesAre(e: Env, n: Node, sticky: bool, p: nat)
    ensures AllMatches(e, n, sticky, p)
         == if sticky then Outcomes(e, Capture(n), false, 0, Start(e, p)) else Search(e, n, Start(e, p))
  {
  }
}
