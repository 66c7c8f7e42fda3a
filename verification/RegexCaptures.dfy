/** What a match leaves in the capture array: a pattern touches the entries of its own groups only, and a group's two
    entries are the ends of the text it matched. */
module RegexCaptures {
  import opened MatchInput
  import opened RegexSemantics

  /** `b` is `a` outside the groups `lo` up to `hi`. */
  ghost predicate Within(a: seq<int>, lo: nat, hi: nat, b: seq<int>) {
    |a| == |b| && forall i :: 0 <= i < |a| && !(2 * lo <= i < 2 * hi) ==> b[i] == a[i]
  }

  ghost predicate AllWithin(a: seq<int>, lo: nat, hi: nat, xs: seq<State>) {
    forall x :: x in xs ==> Within(a, lo, hi, x.caps)
  }

  lemma {:induction false} ResetWithin(a: seq<int>, lo: nat, hi: nat, caps: seq<int>, first: nat, last: int)
    requires Within(a, lo, hi, caps) && lo <= first && last < hi
    ensures Within(a, lo, hi, ResetCaps(caps, first, last))
    decreases last - first
  {
    if first <= last {
      ResetWithin(a, lo, hi, SetCap(SetCap(caps, 2 * first, -1), 2 * first + 1, -1), first + 1, last);
    }
  }

  lemma {:induction false} ClosedWithin(a: seq<int>, lo: nat, hi: nat, back: bool, cap: nat, xs: seq<State>)
    requires AllWithin(a, lo, hi, xs) && lo <= cap < hi
    ensures AllWithin(a, lo, hi, AllClosed(back, cap, xs))
  {
    if xs != [] {
      assert xs[0] in xs;
      ClosedWithin(a, lo, hi, back, cap, xs[1..]);
    }
  }

  /** A pattern touches its own groups only. */
  lemma {:induction false} OutcomesWithin(e: Env, n: Node, back: bool, cap: nat, s: State, a: seq<int>, lo: nat,
                                          hi: nat)
    requires Within(a, lo, hi, s.caps) && lo <= cap && cap + Groups(n) <= hi
    ensures AllWithin(a, lo, hi, Outcomes(e, n, back, cap, s))
    decreases n, 0, 0, 0, 0
  {
    hide *;
    match n
    case Cat(l, r) => CatWithin(e, l, r, back, cap, s, a, lo, hi);
    case Alt(l, r) => AltWithin(e, l, r, back, cap, s, a, lo, hi);
    case Capture(_) => CaptureWithin(e, n, back, cap, s, a, lo, hi);
    case Look(_, _, _) => LookWithin(e, n, back, cap, s, a, lo, hi);
    case Repeat(_, _, _, _) => RepeatWithin(e, n, back, cap, s, a, lo, hi);
    case _ => LeafWithin(e, n, back, cap, s, a, lo, hi);
  }

  /** The other patterns have no groups and leave the captures as they are. */
  lemma LeafWithin(e: Env, n: Node, back: bool, cap: nat, s: State, a: seq<int>, lo: nat, hi: nat)
    requires Within(a, lo, hi, s.caps) && !n.Cat? && !n.Alt? && !n.Capture? && !n.Look? && !n.Repeat?
    ensures AllWithin(a, lo, hi, Outcomes(e, n, back, cap, s))
  {
    hide OneChar, SameText, AtLineStart, AtLineEnd, AtWordBoundary;
    assert forall x :: x in Outcomes(e, n, back, cap, s) ==> x.caps == s.caps;
  }

  lemma AllWithinJoin(a: seq<int>, lo: nat, hi: nat, xs: seq<State>, ys: seq<State>)
    requires AllWithin(a, lo, hi, xs) && AllWithin(a, lo, hi, ys)
    ensures AllWithin(a, lo, hi, xs + ys)
  {
    hide Within;
  }

  lemma GroupParts(l: Node, r: Node)
    ensures Groups(Alt(l, r)) == Groups(Cat(l, r)) == Groups(l) + Groups(r)
  {
  }

  lemma AltParts(e: Env, l: Node, r: Node, back: bool, cap: nat, s: State)
    ensures Outcomes(e, Alt(l, r), back, cap, s)
         == Outcomes(e, l, back, cap, s) + Outcomes(e, r, back, cap + Groups(l), s)
  {
    hide One, When, OneChar, SameText, AtLineStart, AtLineEnd, AtWordBoundary, Opened, AllClosed, FromAll, Mandatory,
      OptionalFromAll, ResetCaps, Groups;
  }

  lemma CatParts(e: Env, l: Node, r: Node, back: bool, cap: nat, s: State)
    ensures Outcomes(e, Cat(l, r), back, cap, s)
         == if back then FromAll(e, l, back, cap, Outcomes(e, r, back, cap + Groups(l), s))
            else FromAll(e, r, back, cap + Groups(l), Outcomes(e, l, back, cap, s))
  {
    hide One, When, OneChar, SameText, AtLineStart, AtLineEnd, AtWordBoundary, Opened, AllClosed, FromAll, Mandatory,
      OptionalFromAll, ResetCaps, Groups;
  }

  lemma AltWithin(e: Env, l: Node, r: Node, back: bool, cap: nat, s: State, a: seq<int>, lo: nat, hi: nat)
    requires Within(a, lo, hi, s.caps) && lo <= cap && cap + Groups(Alt(l, r)) <= hi
    ensures AllWithin(a, lo, hi, Outcomes(e, Alt(l, r), back, cap, s))
    decreases Alt(l, r), -1, 0, 0, 0
  {
    hide *;
    GroupParts(l, r);
    AltParts(e, l, r, back, cap, s);
    OutcomesWithin(e, l, back, cap, s, a, lo, hi);
    OutcomesWithin(e, r, back, cap + Groups(l), s, a, lo, hi);
    AllWithinJoin(a, lo, hi, Outcomes(e, l, back, cap, s), Outcomes(e, r, back, cap + Groups(l), s));
  }

  lemma CaptureWithin(e: Env, n: Node, back: bool, cap: nat, s: State, a: seq<int>, lo: nat, hi: nat)
    requires Within(a, lo, hi, s.caps) && lo <= cap && cap + Groups(n) <= hi && n.Capture?
    ensures AllWithin(a, lo, hi, Outcomes(e, n, back, cap, s))
    decreases n, -1, 0, 0, 0
  {
    var s1 := Opened(back, cap, s);
    OutcomesWithin(e, n.body, back, cap + 1, s1, a, lo, hi);
    assert Outcomes(e, n, back, cap, s) == AllClosed(back, cap, Outcomes(e, n.body, back, cap + 1, s1));
    hide Outcomes, AllClosed;
    ClosedWithin(a, lo, hi, back, cap, Outcomes(e, n.body, back, cap + 1, s1));
  }

  lemma CatWithin(e: Env, l: Node, r: Node, back: bool, cap: nat, s: State, a: seq<int>, lo: nat, hi: nat)
    requires Within(a, lo, hi, s.caps) && lo <= cap && cap + Groups(Cat(l, r)) <= hi
    ensures AllWithin(a, lo, hi, Outcomes(e, Cat(l, r), back, cap, s))
    decreases Cat(l, r), -1, 0, 0, 0
  {
    hide *;
    GroupParts(l, r);
    CatParts(e, l, r, back, cap, s);
    if back {
      OutcomesWithin(e, r, back, cap + Groups(l), s, a, lo, hi);
      FromAllWithin(e, l, back, cap, Outcomes(e, r, back, cap + Groups(l), s), a, lo, hi);
    } else {
      OutcomesWithin(e, l, back, cap, s, a, lo, hi);
      FromAllWithin(e, r, back, cap + Groups(l), Outcomes(e, l, back, cap, s), a, lo, hi);
    }
  }

  lemma LookWithin(e: Env, n: Node, back: bool, cap: nat, s: State, a: seq<int>, lo: nat, hi: nat)
    requires Within(a, lo, hi, s.caps) && lo <= cap && cap + Groups(n) <= hi && n.Look?
    ensures AllWithin(a, lo, hi, Outcomes(e, n, back, cap, s))
    decreases n, -1, 0, 0, 0
  {
    var inner := Outcomes(e, n.body, n.behind, cap, s);
    OutcomesWithin(e, n.body, n.behind, cap, s, a, lo, hi);
    if !n.negated && inner != [] {
      assert inner[0] in inner;
    }
  }

  lemma RepeatWithin(e: Env, n: Node, back: bool, cap: nat, s: State, a: seq<int>, lo: nat, hi: nat)
    requires Within(a, lo, hi, s.caps) && lo <= cap && cap + Groups(n) <= hi && n.Repeat?
    ensures AllWithin(a, lo, hi, Outcomes(e, n, back, cap, s))
    decreases n, -1, 0, 0, 0
  {
    var Repeat(b, min, max, greedy) := n;
    var s0 := if min == 0 then State(s.pos, ResetCaps(s.caps, cap, cap + Groups(b) - 1)) else s;
    ResetWithin(a, lo, hi, s.caps, cap, cap + Groups(b) - 1);
    if min > 0 {
      MandatoryWithin(e, b, back, cap, min, s0, a, lo, hi);
    }
    var xs := if min <= 0 then [s0] else Mandatory(e, b, back, cap, min, s0);
    OptionalFromAllWithin(e, b, back, cap, max - min, max == INFINITE, greedy, xs, a, lo, hi);
  }

  lemma {:induction false} FromAllWithin(e: Env, n: Node, back: bool, cap: nat, xs: seq<State>, a: seq<int>, lo: nat,
                                         hi: nat)
    requires AllWithin(a, lo, hi, xs) && lo <= cap && cap + Groups(n) <= hi
    ensures AllWithin(a, lo, hi, FromAll(e, n, back, cap, xs))
    decreases n, 1, 0, 0, |xs|
  {
    if xs != [] {
      assert xs[0] in xs;
      OutcomesWithin(e, n, back, cap, xs[0], a, lo, hi);
      FromAllWithin(e, n, back, cap, xs[1..], a, lo, hi);
    }
  }

  lemma {:induction false} MandatoryWithin(e: Env, n: Node, back: bool, cap: nat, k: nat, s: State, a: seq<int>,
                                           lo: nat, hi: nat)
    requires Within(a, lo, hi, s.caps) && lo <= cap && cap + Groups(n) <= hi
    ensures AllWithin(a, lo, hi, Mandatory(e, n, back, cap, k, s))
    decreases n, 2, k, 1, 0
  {
    if k > 0 {
      OutcomesWithin(e, n, back, cap, s, a, lo, hi);
      MandatoryFromAllWithin(e, n, back, cap, k - 1, Outcomes(e, n, back, cap, s), a, lo, hi);
    }
  }

  lemma {:induction false} MandatoryFromAllWithin(e: Env, n: Node, back: bool, cap: nat, k: nat, xs: seq<State>,
                                                  a: seq<int>, lo: nat, hi: nat)
    requires AllWithin(a, lo, hi, xs) && lo <= cap && cap + Groups(n) <= hi
    ensures AllWithin(a, lo, hi, MandatoryFromAll(e, n, back, cap, k, xs))
    decreases n, 2, k, 2, |xs|
  {
    if xs != [] {
      assert xs[0] in xs;
      MandatoryWithin(e, n, back, cap, k, xs[0], a, lo, hi);
      MandatoryFromAllWithin(e, n, back, cap, k, xs[1..], a, lo, hi);
    }
  }

  lemma {:induction false} OptionalWithin(e: Env, n: Node, back: bool, cap: nat, k: int, unbounded: bool, greedy: bool,
                                          s: State, a: seq<int>, lo: nat, hi: nat)
    requires Within(a, lo, hi, s.caps) && lo <= cap && cap + Groups(n) <= hi
    ensures AllWithin(a, lo, hi, Optional(e, n, back, cap, k, unbounded, greedy, s))
    decreases n, 3, Remaining(e.inp, back, s.pos), 1, 0
  {
    if k > 0 || unbounded {
      OutcomesWithin(e, n, back, cap, s, a, lo, hi);
      OptionalBelowWithin(e, n, back, cap, k - 1, unbounded, greedy, Remaining(e.inp, back, s.pos),
                          Advancing(e.inp, back, s.pos, Outcomes(e, n, back, cap, s)), a, lo, hi);
    }
  }

  lemma {:induction false} OptionalBelowWithin(e: Env, n: Node, back: bool, cap: nat, k: int, unbounded: bool,
                                               greedy: bool, bound: nat, xs: seq<State>, a: seq<int>, lo: nat, hi: nat)
    requires forall x :: x in xs ==> Remaining(e.inp, back, x.pos) < bound
    requires AllWithin(a, lo, hi, xs) && lo <= cap && cap + Groups(n) <= hi
    ensures AllWithin(a, lo, hi, OptionalBelow(e, n, back, cap, k, unbounded, greedy, bound, xs))
    decreases n, 3, bound, 0, |xs|
  {
    if xs != [] {
      assert xs[0] in xs;
      OptionalWithin(e, n, back, cap, k, unbounded, greedy, xs[0], a, lo, hi);
      OptionalBelowWithin(e, n, back, cap, k, unbounded, greedy, bound, xs[1..], a, lo, hi);
    }
  }

  lemma {:induction false} OptionalFromAllWithin(e: Env, n: Node, back: bool, cap: nat, k: int, unbounded: bool,
                                                 greedy: bool, xs: seq<State>, a: seq<int>, lo: nat, hi: nat)
    requires AllWithin(a, lo, hi, xs) && lo <= cap && cap + Groups(n) <= hi
    ensures AllWithin(a, lo, hi, OptionalFromAll(e, n, back, cap, k, unbounded, greedy, xs))
    decreases n, 4, 0, 0, |xs|
  {
    if xs != [] {
      assert xs[0] in xs;
      OptionalWithin(e, n, back, cap, k, unbounded, greedy, xs[0], a, lo, hi);
      OptionalFromAllWithin(e, n, back, cap, k, unbounded, greedy, xs[1..], a, lo, hi);
    }
  }

  // ----- Groups -----

  /** The entries of group `cap` are the ends of the text from `p` to `q`, in this order. */
  predicate Spans(caps: seq<int>, cap: nat, p: nat, q: nat) {
    2 * cap + 1 < |caps| && caps[2 * cap] == p && caps[2 * cap + 1] == q
  }

  lemma {:induction false} ClosedSpans(back: bool, cap: nat, p: nat, a: seq<int>, xs: seq<State>)
    requires AllWithin(a, cap + 1, |a|, xs) && 2 * cap + 1 < |a| && a[if back then 2 * cap + 1 else 2 * cap] == p
    ensures forall x :: x in AllClosed(back, cap, xs)
                ==> if back then Spans(x.caps, cap, x.pos, p) else Spans(x.caps, cap, p, x.pos)
  {
    if xs != [] {
      assert xs[0] in xs;
      ClosedSpans(back, cap, p, a, xs[1..]);
    }
  }

  lemma {:induction false} WidenWithin(a: seq<int>, lo: nat, hi: nat, xs: seq<State>)
    requires AllWithin(a, lo, hi, xs) && hi <= |a|
    ensures AllWithin(a, lo, |a|, xs)
  {
  }

  /** Every match of a group leaves its ends in the group's two entries, the lower one first whatever the direction. */
  lemma GroupSpans(e: Env, n: Node, back: bool, cap: nat, s: State)
    requires 2 * (cap + 1 + Groups(n)) <= |s.caps|
    ensures forall x :: x in Outcomes(e, Capture(n), back, cap, s)
                ==> if back then Spans(x.caps, cap, x.pos, s.pos) else Spans(x.caps, cap, s.pos, x.pos)
  {
    var s1 := Opened(back, cap, s);
    var xs := Outcomes(e, n, back, cap + 1, s1);
    OutcomesWithin(e, n, back, cap + 1, s1, s1.caps, cap + 1, cap + 1 + Groups(n));
    WidenWithin(s1.caps, cap + 1, cap + 1 + Groups(n), xs);
    assert Outcomes(e, Capture(n), back, cap, s) == AllClosed(back, cap, xs);
    hide Outcomes;
    ClosedSpans(back, cap, s.pos, s1.caps, xs);
  }
}
