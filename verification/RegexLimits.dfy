/** When the compiler reports that it is out of memory: `lre_check_size` looks at the buffer on entry
    to every disjunction, alternative and term, and nowhere else. The sizes it sees are computed from the tree. */
module RegexLimits {
  import opened Instructions
  import opened RegexSemantics
  import opened RegexCode
  import opened RegexSize

  const SIZE_MAX: int := 64 * 1024 * 1024

  predicate IsGroup(n: Node) {
    n.Empty? || n.Cat? || n.Alt?
  }

  function MaxOf(a: nat, b: nat): nat { if a < b then b else a }

  /** The function of the parser a size belongs to. */
  datatype Level = Disjunction | Alternative | Term | Atom

  function Rank(level: Level, n: Node): nat {
    match level
    case Disjunction => 3
    case Alternative => if n.Alt? then 6 else 2
    case Term => if IsGroup(n) then 5 else 1
    case Atom => if IsGroup(n) || n.Repeat? then 4 else 0
  }

  /** The largest buffer size `lre_check_size` sees while the function for `level` reads `n`, from a
      buffer of `start` bytes. */
  function Checks(level: Level, n: Node, back: bool, cap: nat, start: nat): (r: nat)
    requires WellFormed(n)
    ensures r >= start
    decreases n, Rank(level, n), 1
  {
    match level
    case Disjunction => DisjunctionChecks(n, back, cap, start)
    case Alternative => AlternativeChecks(n, back, cap, start)
    case Term => Checks(Atom, if n.Repeat? then n.body else n, back, cap, start)
    case Atom => AtomChecks(n, back, cap, start)
  }

  function DisjunctionChecks(n: Node, back: bool, cap: nat, start: nat): (r: nat)
    requires WellFormed(n)
    ensures r >= start
    decreases n, 3, 0
  {
    if n.Alt? then
      MaxOf(Checks(Disjunction, n.left, back, cap, start),
            Checks(Alternative, n.right, back, cap + Groups(n.left), start + CodeSize(n.left, back) + 10))
    else Checks(Alternative, n, back, cap, start)
  }

  function AlternativeChecks(n: Node, back: bool, cap: nat, start: nat): (r: nat)
    requires WellFormed(n)
    ensures r >= start
    decreases n, Rank(Alternative, n), 0
  {
    if n.Cat? then
      MaxOf(Checks(Alternative, n.left, back, cap, start),
            Checks(Term, n.right, back, cap + Groups(n.left), start + CodeSize(n.left, back)))
    else if n.Empty? then start
    else Checks(Term, n, back, cap, start)
  }

  function AtomChecks(n: Node, back: bool, cap: nat, start: nat): (r: nat)
    requires WellFormed(n)
    ensures r >= start
    decreases n, Rank(Atom, n), 0
  {
    if n.Capture? then Checks(Disjunction, n.body, back, cap + 1, start + 2)
    else if n.Look? then Checks(Disjunction, n.body, n.behind, cap, start + 5)
    else if IsGroup(n) || n.Repeat? then Checks(Disjunction, n, back, cap, start)
    else start
  }

  lemma CatChecksOf(n: Node, back: bool, cap: nat, start: nat)
    requires WellFormed(n) && n.Cat?
    ensures WellFormed(n.left) && WellFormed(n.right)
    ensures Checks(Alternative, n, back, cap, start)
         == MaxOf(Checks(Alternative, n.left, back, cap, start),
                  Checks(Term, n.right, back, cap + Groups(n.left), start + Length(Code(n.left, back, cap))))
  {
    hide *;
    CatWellFormed(n);
    LevelIs(Alternative, n, back, cap, start);
    CatStep(n, back, cap, start);
    LengthIsCodeSize(n.left, back, cap);
  }

  lemma LevelIs(level: Level, n: Node, back: bool, cap: nat, start: nat)
    requires WellFormed(n)
    ensures level == Disjunction ==> Checks(level, n, back, cap, start) == DisjunctionChecks(n, back, cap, start)
    ensures level == Alternative ==> Checks(level, n, back, cap, start) == AlternativeChecks(n, back, cap, start)
  {
    hide WellFormed;
    hide DisjunctionChecks;
    hide AlternativeChecks;
    hide AtomChecks;
  }

  lemma CatStep(n: Node, back: bool, cap: nat, start: nat)
    requires WellFormed(n) && n.Cat? && WellFormed(n.left) && WellFormed(n.right)
    ensures AlternativeChecks(n, back, cap, start)
         == MaxOf(Checks(Alternative, n.left, back, cap, start),
                  Checks(Term, n.right, back, cap + Groups(n.left), start + CodeSize(n.left, back)))
  {
    hide WellFormed;
    hide Checks;
    hide CodeSize;
    hide Groups;
    hide MaxOf;
  }

  lemma AltStep(n: Node, back: bool, cap: nat, start: nat)
    requires WellFormed(n) && n.Alt? && WellFormed(n.left) && WellFormed(n.right)
    ensures DisjunctionChecks(n, back, cap, start)
         == MaxOf(Checks(Disjunction, n.left, back, cap, start),
                  Checks(Alternative, n.right, back, cap + Groups(n.left),
                         start + CodeSize(n.left, back) + 10))
  {
    hide WellFormed;
    hide Checks;
    hide CodeSize;
    hide Groups;
    hide MaxOf;
  }

  lemma CatWellFormed(n: Node)
    requires WellFormed(n) && (n.Cat? || n.Alt?)
    ensures WellFormed(n.left) && WellFormed(n.right)
  {
  }

  lemma AltChecksOf(n: Node, back: bool, cap: nat, start: nat)
    requires WellFormed(n) && n.Alt?
    ensures WellFormed(n.left) && WellFormed(n.right)
    ensures Checks(Disjunction, n, back, cap, start)
         == MaxOf(Checks(Disjunction, n.left, back, cap, start),
                  Checks(Alternative, n.right, back, cap + Groups(n.left),
                         start + Length(Code(n.left, back, cap)) + 10))
  {
    hide *;
    CatWellFormed(n);
    LevelIs(Disjunction, n, back, cap, start);
    AltStep(n, back, cap, start);
    LengthIsCodeSize(n.left, back, cap);
  }

  lemma MaxIs(a: nat, b: nat)
    ensures MaxOf(a, b) == (if a < b then b else a) && MaxOf(a, b) >= a && MaxOf(a, b) >= b
  {
  }
}
