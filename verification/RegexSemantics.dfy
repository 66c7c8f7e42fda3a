/** Patterns and what they mean: the ordered list of ways a pattern can match at a state.
    The first element is the match; the others are what backtracking would try next.
    As the compiler does and section 22.2.2.3.1 of ECMA-262 does not, the captures inside a
    repeated atom are reset once, before a repeat whose minimum is 0, not on every iteration. */
module RegexSemantics {
  import opened MatchInput
  import PointSets

  /** The repeat count the parser uses for "no upper bound". */
  const INFINITE: int := 0x7FFF_FFFF

  datatype Node =
    | Empty
    | Char(c: int)
    | AnyChar(lineTerminators: bool)
    | Class(points: seq<int>)
    | LineStart
    | LineEnd
    | WordBoundary(negated: bool)
    | Cat(left: Node, right: Node)
    | Alt(left: Node, right: Node)
    | Capture(body: Node)
    | BackRef(group: int)
    | Look(negated: bool, behind: bool, body: Node)
    | Repeat(body: Node, min: int, max: int, greedy: bool)

  /** What the parser guarantees of a tree it builds. */
  ghost predicate WellFormed(n: Node) {
    match n
    case Char(c) => 0 <= c < 0x110000
    case Class(p) =>
      && PointSets.Canonical(p) && |p| / 2 < 65535
      && forall i :: 0 <= i < |p| ==> 0 <= p[i] <= PointSets.UINT32_MAX
    case Cat(a, b) => WellFormed(a) && WellFormed(b)
    case Alt(a, b) => WellFormed(a) && WellFormed(b)
    case Capture(a) => WellFormed(a)
    case BackRef(g) => 1 <= g < 255
    case Look(_, _, a) => WellFormed(a)
    case Repeat(a, min, max, _) => WellFormed(a) && 0 <= min <= max <= INFINITE
    case _ => true
  }

  /** The capture groups a pattern opens; they are numbered in pattern order. */
  function Groups(n: Node): nat {
    match n
    case Cat(a, b) => Groups(a) + Groups(b)
    case Alt(a, b) => Groups(a) + Groups(b)
    case Capture(a) => 1 + Groups(a)
    case Look(_, _, a) => Groups(a)
    case Repeat(a, _, _, _) => Groups(a)
    case _ => 0
  }

  /** A position and the capture array: two entries a group, -1 for NULL. */
  datatype State = State(pos: nat, caps: seq<int>)

  datatype Env = Env(inp: Input, multiLine: bool, groups: nat)

  predicate IsLineTerminator(c: int) {
    c == 0x0A || c == 0x0D || c == 0x2028 || c == 0x2029
  }

  predicate IsWordChar(c: int) {
    0x30 <= c <= 0x39 || 0x61 <= c <= 0x7A || 0x41 <= c <= 0x5A || c == 0x5F
  }

  /** The character PEEK_PREV_CHAR sees. */
  function CharBefore(inp: Input, p: nat): int
    requires 0 < p <= |inp.units|
  {
    if p >= 2 && inp.Pair(p - 2) then FromSurrogate(inp.units[p - 2], inp.units[p - 1]) else inp.units[p - 1]
  }

  predicate AtLineStart(e: Env, p: nat) {
    p == 0 || (p <= |e.inp.units| && e.multiLine && IsLineTerminator(CharBefore(e.inp, p)))
  }

  predicate AtLineEnd(e: Env, p: nat) {
    p == |e.inp.units| || (p < |e.inp.units| && e.multiLine && IsLineTerminator(e.inp.CharAt(p)))
  }

  predicate AtWordBoundary(e: Env, p: nat) {
    var before := 0 < p <= |e.inp.units| && IsWordChar(CharBefore(e.inp, p));
    var after := p < |e.inp.units| && IsWordChar(e.inp.CharAt(p));
    before != after
  }

  /** A node that matches one character. */
  predicate IsOneChar(n: Node) {
    n.Char? || n.AnyChar? || n.Class?
  }

  predicate Accepts(n: Node, c: int)
    requires IsOneChar(n)
  {
    match n
    case Char(d) => c == d
    case AnyChar(lineTerminators) => lineTerminators || !IsLineTerminator(c)
    case Class(p) => PointSets.Member(p, c)
  }

  /** Where a one-character node leads from `p`, or -1. */
  function OneChar(inp: Input, n: Node, back: bool, p: nat): int
    requires IsOneChar(n)
  {
    if back then
      if 0 < p <= |inp.units| && Accepts(n, inp.CharAt(inp.Prev(p))) then inp.Prev(p) else -1
    else
      if p < |inp.units| && Accepts(n, inp.CharAt(p)) then inp.Next(p) else -1
  }

  /** Where a back reference to the text between `a` and `b` leads from `p`, or -1. An unset
      group matches the empty string. */
  function SameText(inp: Input, back: bool, a: int, b: int, p: nat): int {
    if a < 0 || b <= a then p
    else if b > |inp.units| || p > |inp.units| then -1
    else if back then
      if b - a <= p && inp.units[p - (b - a)..p] == inp.units[a..b]
        && inp.Boundary(p - (b - a)) then p - (b - a) else -1
    else
      if p + (b - a) <= |inp.units| && inp.units[p..p + (b - a)] == inp.units[a..b] && inp.Boundary(p + (b - a))
      then p + (b - a) else -1
  }

  function Cap(caps: seq<int>, i: nat): int {
    if i < |caps| then caps[i] else -1
  }

  function SetCap(caps: seq<int>, i: nat, v: int): (r: seq<int>)
    ensures |r| == |caps|
  {
    if i < |caps| then caps[i := v] else caps
  }

  /** The captures with groups `first` to `last` set to NULL, `first` upwards. */
  function ResetCaps(caps: seq<int>, first: nat, last: int): (r: seq<int>)
    ensures |r| == |caps|
    decreases last - first
  {
    if last < first then caps
    else ResetCaps(SetCap(SetCap(caps, 2 * first, -1), 2 * first + 1, -1), first + 1, last)
  }

  function Opened(back: bool, cap: nat, s: State): State {
    State(s.pos, SetCap(s.caps, if back then 2 * cap + 1 else 2 * cap, s.pos))
  }

  function Closed(back: bool, cap: nat, s: State): State {
    State(s.pos, SetCap(s.caps, if back then 2 * cap else 2 * cap + 1, s.pos))
  }

  function AllClosed(back: bool, cap: nat, xs: seq<State>): (r: seq<State>)
    ensures |r| == |xs|
  {
    if xs == [] then [] else [Closed(back, cap, xs[0])] + AllClosed(back, cap, xs[1..])
  }

  /** The distance left in the direction of travel. */
  function Remaining(inp: Input, back: bool, p: nat): nat {
    if back then p else if p <= |inp.units| then |inp.units| - p else 0
  }

  predicate Advanced(inp: Input, back: bool, p: nat, x: State) {
    Remaining(inp, back, x.pos) < Remaining(inp, back, p)
  }

  /** The states of `xs` that are strictly further on than `p`. */
  function Advancing(inp: Input, back: bool, p: nat, xs: seq<State>): (r: seq<State>)
    ensures forall x :: x in r ==> x in xs && Advanced(inp, back, p, x)
  {
    if xs == [] then []
    else (if Advanced(inp, back, p, xs[0]) then [xs[0]] else []) + Advancing(inp, back, p, xs[1..])
  }

  function One(p: int, caps: seq<int>): seq<State> {
    if p < 0 then [] else [State(p, caps)]
  }

  function When(b: bool, s: State): seq<State> {
    if b then [s] else []
  }

  /** Every way `n` matches from `s`, in the order backtracking tries them. `back` is the
      direction of travel and `cap` the number of the first group `n` opens. */
  function Outcomes(e: Env, n: Node, back: bool, cap: nat, s: State): seq<State>
    decreases n, 0, 0, 0, 0
  {
    match n
    case Empty => [s]
    case Char(_) => One(OneChar(e.inp, n, back, s.pos), s.caps)
    case AnyChar(_) => One(OneChar(e.inp, n, back, s.pos), s.caps)
    case Class(_) => One(OneChar(e.inp, n, back, s.pos), s.caps)
    case LineStart => When(AtLineStart(e, s.pos), s)
    case LineEnd => When(AtLineEnd(e, s.pos), s)
    case WordBoundary(negated) => When(AtWordBoundary(e, s.pos) != negated, s)
    case Cat(a, b) =>
      if back then FromAll(e, a, back, cap, Outcomes(e, b, back, cap + Groups(a), s))
      else FromAll(e, b, back, cap + Groups(a), Outcomes(e, a, back, cap, s))
    case Alt(a, b) => Outcomes(e, a, back, cap, s) + Outcomes(e, b, back, cap + Groups(a), s)
    case Capture(a) => AllClosed(back, cap, Outcomes(e, a, back, cap + 1, Opened(back, cap, s)))
    case BackRef(g) =>
      if 0 <= g < e.groups
      then One(SameText(e.inp, back, Cap(s.caps, 2 * g), Cap(s.caps, 2 * g + 1), s.pos), s.caps)
      else []
    case Look(negated, behind, a) =>
      var inner := Outcomes(e, a, behind, cap, s);
      if negated then When(inner == [], s)
      else if inner == [] then [] else [State(s.pos, inner[0].caps)]
    case Repeat(a, min, max, greedy) =>
      var s0 := if min == 0 then State(s.pos, ResetCaps(s.caps, cap, cap + Groups(a) - 1)) else s;
      OptionalFromAll(e, a, back, cap, max - min, max == INFINITE, greedy,
        if min <= 0 then [s0] else Mandatory(e, a, back, cap, min, s0))
  }

  /** `Outcomes` from each of `xs`, in order. */
  function FromAll(e: Env, n: Node, back: bool, cap: nat, xs: seq<State>): seq<State>
    decreases n, 1, 0, 0, |xs|
  {
    if xs == [] then [] else Outcomes(e, n, back, cap, xs[0]) + FromAll(e, n, back, cap, xs[1..])
  }

  /** Exactly `k` matches of `n` in a row. */
  function Mandatory(e: Env, n: Node, back: bool, cap: nat, k: nat, s: State): seq<State>
    decreases n, 2, k, 1, 0
  {
    if k == 0 then [s] else MandatoryFromAll(e, n, back, cap, k - 1, Outcomes(e, n, back, cap, s))
  }

  function MandatoryFromAll(e: Env, n: Node, back: bool, cap: nat, k: nat, xs: seq<State>): seq<State>
    decreases n, 2, k, 2, |xs|
  {
    if xs == [] then []
    else Mandatory(e, n, back, cap, k, xs[0]) + MandatoryFromAll(e, n, back, cap, k, xs[1..])
  }

  /** Up to `k` further matches of `n` (any number when `unbounded`), each of which must advance. */
  function Optional(e: Env, n: Node, back: bool, cap: nat, k: int, unbounded: bool, greedy: bool, s: State): seq<State>
    decreases n, 3, Remaining(e.inp, back, s.pos), 1, 0
  {
    if k <= 0 && !unbounded then [s]
    else
      var more := OptionalBelow(e, n, back, cap, k - 1, unbounded, greedy, Remaining(e.inp, back, s.pos),
                                Advancing(e.inp, back, s.pos, Outcomes(e, n, back, cap, s)));
      if greedy then more + [s] else [s] + more
  }

  function OptionalBelow(e: Env, n: Node, back: bool, cap: nat, k: int, unbounded: bool, greedy: bool,
                         bound: nat, xs: seq<State>): seq<State>
    requires forall x :: x in xs ==> Remaining(e.inp, back, x.pos) < bound
    decreases n, 3, bound, 0, |xs|
  {
    if xs == [] then []
    else
      assert xs[0] in xs;
      Optional(e, n, back, cap, k, unbounded, greedy, xs[0])
      + OptionalBelow(e, n, back, cap, k, unbounded, greedy, bound, xs[1..])
  }

  function OptionalFromAll(e: Env, n: Node, back: bool, cap: nat, k: int, unbounded: bool, greedy: bool,
                           xs: seq<State>): seq<State>
    decreases n, 4, 0, 0, |xs|
  {
    if xs == [] then []
    else Optional(e, n, back, cap, k, unbounded, greedy, xs[0])
         + OptionalFromAll(e, n, back, cap, k, unbounded, greedy, xs[1..])
  }

  /** Matching at the first position from `s` on that has a match: the search prefix of a
      non-sticky expression. */
  function Search(e: Env, n: Node, s: State): seq<State>
    decreases Remaining(e.inp, false, s.pos)
  {
    Outcomes(e, Capture(n), false, 0, s)
    + (if s.pos < |e.inp.units| then Search(e, n, State(e.inp.Next(s.pos), s.caps)) else [])
  }
}
