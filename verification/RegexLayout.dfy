/** Byte-code well-formedness: every jump of a compiled program lands on an instruction boundary
    where the linear stack height is the same, and the height never goes below what the
    instructions take off. */
module RegexLayout {
  import opened Instructions
  import opened RegexSemantics
  import opened RegexCode
  import opened RegexAnalysis

  predicate IsJump(i: Instr) {
    || i.Goto? || i.SplitGotoFirst? || i.SplitNextFirst? || i.Loop?
    || i.Lookahead? || i.NegativeLookahead? || i.SimpleGreedyQuant?
  }

  /** The jump of `c[i]` lands before `c[j]` (or at the end), at the same linear height. */
  ghost predicate LandsAt(c: seq<Instr>, i: nat, j: nat)
    requires i < |c| && IsJump(c[i])
  {
    j <= |c| && Length(c[..j]) == Length(c[..i + 1]) + c[i].offset && Depth(c[..j]) == Depth(c[..i + 1])
  }

  ghost predicate Lands(c: seq<Instr>, i: nat)
    requires i < |c| && IsJump(c[i])
  {
    exists j :: LandsAt(c, i, j)
  }

  ghost predicate JumpsLand(c: seq<Instr>) {
    forall i :: 0 <= i < |c| && IsJump(c[i]) ==> Lands(c, i)
  }

  /** With `base` entries below, no instruction finds the stack too short. */
  predicate Supported(c: seq<Instr>, base: int) {
    base >= 0
    && (c != [] ==> (c[0].Loop? ==> base >= 1) && Supported(c[1..], base + Delta(c[0])))
  }

  ghost predicate Tidy(c: seq<Instr>) {
    JumpsLand(c) && Depth(c) == 0 && Supported(c, 0)
  }

  lemma {:induction false} DepthConcat(a: seq<Instr>, b: seq<Instr>)
    ensures Depth(a + b) == Depth(a) + Depth(b)
  {
    if a == [] {
      assert a + b == b;
    } else {
      assert (a + b)[0] == a[0] && (a + b)[1..] == a[1..] + b;
      DepthConcat(a[1..], b);
    }
  }

  lemma {:induction false} SupportedConcat(a: seq<Instr>, b: seq<Instr>, base: int)
    requires Supported(a, base) && Supported(b, base + Depth(a))
    ensures Supported(a + b, base)
    decreases |a|
  {
    if a == [] {
      assert a + b == b;
    } else {
      assert (a + b)[0] == a[0] && (a + b)[1..] == a[1..] + b;
      SupportedConcat(a[1..], b, base + Delta(a[0]));
    }
  }

  lemma {:induction false} SupportedMore(a: seq<Instr>, base: int, more: int)
    requires Supported(a, base) && base <= more
    ensures Supported(a, more)
    decreases |a|
  {
    if a != [] {
      SupportedMore(a[1..], base + Delta(a[0]), more + Delta(a[0]));
    }
  }

  lemma SingleInstr(i: Instr)
    ensures Depth([i]) == Delta(i)
    ensures forall base: int :: base >= 0 && base + Delta(i) >= 0 && (i.Loop? ==> base >= 1) ==> Supported([i], base)
    ensures !IsJump(i) ==> JumpsLand([i])
  {
    assert [i][1..] == [];
  }

  lemma SliceShift(a: seq<Instr>, m: seq<Instr>, b: seq<Instr>, j: nat)
    requires j <= |m|
    ensures (a + m + b)[..|a| + j] == a + m[..j]
  {
  }

  /** Address and height of a place inside a piece of a longer program. */
  lemma MarkShift(a: seq<Instr>, m: seq<Instr>, b: seq<Instr>, j: nat)
    requires j <= |m|
    ensures Length((a + m + b)[..|a| + j]) == Length(a) + Length(m[..j])
    ensures Depth((a + m + b)[..|a| + j]) == Depth(a) + Depth(m[..j])
  {
    hide *;
    SliceShift(a, m, b, j);
    LengthConcat(a, m[..j]);
    DepthConcat(a, m[..j]);
  }

  /** A jump that lands within its piece still does when the piece is part of a program. */
  lemma LandsShift(a: seq<Instr>, m: seq<Instr>, b: seq<Instr>, i: nat)
    requires i < |m| && IsJump(m[i]) && Lands(m, i)
    ensures (a + m + b)[|a| + i] == m[i] && Lands(a + m + b, |a| + i)
  {
    hide *;
    var j := LandingOf(m, i);
    ShiftedAt(a, m, b, i);
    MarkShift(a, m, b, j);
    MarkShift(a, m, b, i + 1);
    LandsIntro(a + m + b, |a| + i, |a| + j);
  }

  lemma LandingOf(c: seq<Instr>, i: nat) returns (j: nat)
    requires i < |c| && IsJump(c[i]) && Lands(c, i)
    ensures j <= |c| && Length(c[..j]) == Length(c[..i + 1]) + c[i].offset && Depth(c[..j]) == Depth(c[..i + 1])
  {
    hide Length;
    hide Depth;
    j :| LandsAt(c, i, j);
  }

  lemma ShiftedAt(a: seq<Instr>, m: seq<Instr>, b: seq<Instr>, i: nat)
    requires i < |m|
    ensures (a + m + b)[|a| + i] == m[i]
  {
  }

  lemma JumpsConcat(a: seq<Instr>, b: seq<Instr>)
    requires JumpsLand(a) && JumpsLand(b)
    ensures JumpsLand(a + b)
  {
    hide Lands;
    forall i | 0 <= i < |a + b| && IsJump((a + b)[i]) ensures Lands(a + b, i) {
      if i < |a| {
        LandsShift([], a, b, i);
        assert [] + a + b == a + b;
      } else {
        LandsShift(a, b, [], i - |a|);
        assert a + b + [] == a + b;
      }
    }
  }

  lemma TidyConcat(a: seq<Instr>, b: seq<Instr>)
    requires Tidy(a) && Tidy(b)
    ensures Tidy(a + b)
  {
    JumpsConcat(a, b);
    DepthConcat(a, b);
    SupportedConcat(a, b, 0);
  }

  /** Pieces between and after two instructions that may jump among them. */
  lemma FrameJumps(x: Instr, m: seq<Instr>, y: Instr, z: seq<Instr>, jx: nat, jy: nat)
    requires JumpsLand(m) && JumpsLand(z)
    requires var w := [x] + m + [y] + z;
      && (IsJump(x) ==> jx <= |w| && Length(w[..jx]) == Size(x) + x.offset && Depth(w[..jx]) == Delta(x))
      && (IsJump(y) ==> jy <= |w| && Length(w[..jy]) == Size(x) + Length(m) + Size(y) + y.offset
                        && Depth(w[..jy]) == Delta(x) + Depth(m) + Delta(y))
    ensures JumpsLand([x] + m + [y] + z)
  {
    hide *;
    var w := [x] + m + [y] + z;
    FrameSlices(x, m, y, z);
    FrameMarks(x, m, y, z);
    forall i | 0 <= i < |w| && IsJump(w[i]) ensures Lands(w, i) {
      if i == 0 {
        LandsIntro(w, 0, jx);
      } else if i <= |m| {
        LandIn(m, i - 1);
        LandsShift([x], m, [y] + z, i - 1);
      } else if i == |m| + 1 {
        LandsIntro(w, i, jy);
      } else {
        LandIn(z, i - |m| - 2);
        LandsShift([x] + m + [y], z, [], i - |m| - 2);
      }
    }
    LandsAll(w);
  }

  lemma LandIn(c: seq<Instr>, i: nat)
    requires JumpsLand(c) && i < |c|
    ensures IsJump(c[i]) ==> Lands(c, i)
  {
  }

  lemma LandsAll(c: seq<Instr>)
    requires forall i :: 0 <= i < |c| && IsJump(c[i]) ==> Lands(c, i)
    ensures JumpsLand(c)
  {
  }

  lemma LandsIntro(c: seq<Instr>, i: nat, j: nat)
    requires i < |c| && IsJump(c[i])
    requires j <= |c| && Length(c[..j]) == Length(c[..i + 1]) + c[i].offset && Depth(c[..j]) == Depth(c[..i + 1])
    ensures Lands(c, i)
  {
    assert LandsAt(c, i, j);
  }

  lemma FrameSlices(x: Instr, m: seq<Instr>, y: Instr, z: seq<Instr>)
    ensures var w := [x] + m + [y] + z;
      && w[0] == x && w[|m| + 1] == y && w == [x] + m + ([y] + z) && w == ([x] + m + [y]) + z + []
  {
  }

  /** The addresses and heights between the pieces of a frame. */
  lemma FrameMarks(x: Instr, m: seq<Instr>, y: Instr, z: seq<Instr>)
    ensures var w := [x] + m + [y] + z;
      && Length(w[..0]) == 0 && Depth(w[..0]) == 0
      && Length(w[..1]) == Size(x) && Depth(w[..1]) == Delta(x)
      && Length(w[..|m| + 2]) == Size(x) + Length(m) + Size(y) && Depth(w[..|m| + 2]) == Delta(x) + Depth(m) + Delta(y)
      && w[..|w|] == w && Length(w) == Size(x) + Length(m) + Size(y) + Length(z)
      && Depth(w) == Delta(x) + Depth(m) + Delta(y) + Depth(z)
  {
    var w := [x] + m + [y] + z;
    LengthOne(x);
    LengthOne(y);
    SingleInstr(x);
    SingleInstr(y);
    assert w[..0] == [] && w[..1] == [x] && w[..|m| + 2] == [x] + m + [y] && w[..|w|] == w;
    assert Length([]) == 0 && Depth([]) == 0;
    hide Length;
    hide Depth;
    hide Size;
    hide Delta;
    LengthConcat([x] + m + [y], z);
    LengthConcat([x] + m, [y]);
    LengthConcat([x], m);
    DepthConcat([x] + m + [y], z);
    DepthConcat([x] + m, [y]);
    DepthConcat([x], m);
  }

  lemma FrameSupported(x: Instr, m: seq<Instr>, y: Instr, z: seq<Instr>)
    requires Delta(x) >= 0 && Depth(m) == 0 && Supported(m, 0) && !x.Loop?
    requires y.Loop? ==> Delta(x) >= 1
    requires Delta(y) == 0 && Supported(z, Delta(x))
    ensures Supported([x] + m + [y] + z, 0)
  {
    SingleInstr(x);
    SingleInstr(y);
    SupportedMore(m, 0, Delta(x));
    hide Supported;
    hide Depth;
    hide Delta;
    SupportedConcat([x], m, 0);
    DepthConcat([x], m);
    SupportedConcat([x] + m, [y], 0);
    DepthConcat([x] + m, [y]);
    SupportedConcat([x] + m + [y], z, 0);
  }

  /** A frame is tidy when its pieces are and its two jumps land. */
  lemma TidyFrame(x: Instr, m: seq<Instr>, y: Instr, z: seq<Instr>, jx: nat, jy: nat)
    requires Tidy(m) && JumpsLand(z) && Delta(x) >= 0 && !x.Loop? && Delta(y) == 0 && (y.Loop? ==> Delta(x) >= 1)
    requires Supported(z, Delta(x)) && Depth(z) == -Delta(x)
    requires var w := [x] + m + [y] + z;
      && (IsJump(x) ==> jx <= |w| && Length(w[..jx]) == Size(x) + x.offset && Depth(w[..jx]) == Delta(x))
      && (IsJump(y) ==> jy <= |w| && Length(w[..jy]) == Size(x) + Length(m) + Size(y) + y.offset
                        && Depth(w[..jy]) == Delta(x) + Depth(m) + Delta(y))
    ensures Tidy([x] + m + [y] + z)
  {
    hide Length;
    hide Depth;
    hide Delta;
    hide Size;
    hide Supported;
    hide JumpsLand;
    FrameJumps(x, m, y, z, jx, jy);
    FrameMarks(x, m, y, z);
    FrameSupported(x, m, y, z);
  }

  lemma TidyEmpty()
    ensures Tidy([])
  {
  }

  lemma TidyOne(i: Instr)
    requires !IsJump(i) && Delta(i) == 0
    ensures Tidy([i])
  {
    SingleInstr(i);
  }

  lemma JumpSize(i: Instr)
    requires IsJump(i)
    ensures Size(i) == (if i.SimpleGreedyQuant? then 17 else 5) && Delta(i) == 0
  {
  }

  // ----- the constructs -----

  lemma TidyAlt(ca: seq<Instr>, cb: seq<Instr>)
    requires Tidy(ca) && Tidy(cb)
    ensures Tidy(EitherCode(ca, cb))
  {
    hide *;
    EitherCodeIs(ca, cb);
    var x, y := SplitNextFirst(Length(ca) + 5), Goto(Length(cb));
    JumpSize2(x);
    JumpSize2(y);
    TidyParts(ca);
    TidyParts(cb);
    FrameMarks(x, ca, y, cb);
    TidyFrame(x, ca, y, cb, |ca| + 2, |ca| + |cb| + 2);
  }

  lemma JumpSize2(i: Instr)
    ensures i.Goto? || i.SplitGotoFirst? || i.SplitNextFirst? || i.Loop? || i.PushI32? ==> Size(i) == 5
    ensures i.Goto? || i.SplitGotoFirst? || i.SplitNextFirst? || i.Loop? ==> IsJump(i) && Delta(i) == 0
    ensures i.PushI32? ==> !IsJump(i) && Delta(i) == 1
    ensures i.Drop? ==> !IsJump(i) && Delta(i) == -1
  {
  }

  /** An instruction, a piece and an instruction that does not jump. */
  lemma TidyWrap(x: Instr, m: seq<Instr>, y: Instr)
    requires Tidy(m) && Delta(x) == 0 == Delta(y) && !x.Loop? && !IsJump(y)
    requires IsJump(x) ==> x.offset == Length(m) + Size(y)
    ensures Tidy([x] + m + [y])
  {
    hide Length;
    hide Supported;
    hide JumpsLand;
    hide Size;
    hide Delta;
    TidyEmpty();
    TidyParts([]);
    FrameMarks(x, m, y, []);
    EmptyMarks();
    TidyFrame(x, m, y, [], |m| + 2, 0);
    assert [x] + m + [y] + [] == [x] + m + [y];
  }

  lemma TidyParts(c: seq<Instr>)
    requires Tidy(c)
    ensures JumpsLand(c) && Depth(c) == 0 && Supported(c, 0)
  {
  }

  lemma EmptyMarks()
    ensures Length([]) == 0 && Depth([]) == 0
  {
  }

  lemma TidyGuarded(check: bool, c: seq<Instr>)
    requires Tidy(c)
    ensures Tidy(Guarded(check, c))
  {
    if check {
      SingleInstr(PushCharPos);
      SingleInstr(CheckAdvance);
      SupportedMore(c, 0, 1);
      JumpsConcat([PushCharPos], c);
      JumpsConcat([PushCharPos] + c, [CheckAdvance]);
      DepthConcat([PushCharPos], c);
      DepthConcat([PushCharPos] + c, [CheckAdvance]);
      hide JumpsLand;
      hide Depth;
      hide Supported;
      SupportedConcat([PushCharPos], c, 0);
      SupportedConcat([PushCharPos] + c, [CheckAdvance], 0);
    }
  }

  lemma TidyLoop(g: seq<Instr>, greedy: bool)
    requires Tidy(g)
    ensures Tidy(LoopCode(g, greedy, true))
  {
    var x, y := Branch(greedy, Length(g) + 5), Goto(-(Length(g) + 10));
    JumpSize(x);
    JumpSize(y);
    EmptyMarks();
    TidyEmpty();
    TidyParts([]);
    FrameMarks(x, g, y, []);
    assert LoopCode(g, greedy, true) == [x] + g + [y] + [];
    hide Length;
    hide Supported;
    hide JumpsLand;
    hide Size;
    hide Depth;
    TidyFrame(x, g, y, [], |g| + 2, 0);
  }

  /** A counted loop behind the push of its counter. */
  lemma TidyCounted(k: int, g: seq<Instr>, greedy: bool)
    requires Tidy(g)
    ensures Tidy([PushI32(k)] + LoopCode(g, greedy, false))
  {
    hide *;
    var x, y := Branch(greedy, Length(g) + 5), Instr.Loop(-(Length(g) + 10));
    CountedCodeIs(g, greedy);
    BranchSize(greedy, Length(g) + 5);
    var p, w := PushI32(k), [x] + g + [y] + [Drop];
    JumpSize2(y);
    JumpSize2(p);
    SingleInstr(p);
    JumpSize2(Drop);
    SingleInstr(Drop);
    TidyParts(g);
    FrameMarks(x, g, y, [Drop]);
    FrameJumps(x, g, y, [Drop], |g| + 2, 0);
    JumpsConcat([p], w);
    DepthConcat([p], w);
    CountedSupported(x, g, y);
    SupportedConcat([p], w, 0);
    TidyIntro([p] + w);
  }

  lemma CountedCodeIs(g: seq<Instr>, greedy: bool)
    ensures LoopCode(g, greedy, false) == [Branch(greedy, Length(g) + 5)] + g + [Instr.Loop(-(Length(g) + 10))] + [Drop]
  {
  }

  lemma TidyIntro(c: seq<Instr>)
    requires JumpsLand(c) && Depth(c) == 0 && Supported(c, 0)
    ensures Tidy(c)
  {
  }

  lemma BranchSize(greedy: bool, d: int)
    ensures var x := Branch(greedy, d); Size(x) == 5 && IsJump(x) && Delta(x) == 0 && x.offset == d && !x.Loop?
  {
  }

  lemma CountedSupported(x: Instr, g: seq<Instr>, y: Instr)
    requires Delta(x) == 0 && Delta(y) == 0 && !x.Loop? && Tidy(g)
    ensures Supported([x] + g + [y] + [Drop], 1)
  {
    SingleInstr(x);
    SingleInstr(y);
    SingleInstr(Drop);
    SupportedMore(g, 0, 1);
    hide Supported;
    hide JumpsLand;
    hide Depth;
    SupportedConcat([x], g, 1);
    DepthConcat([x], g);
    SupportedConcat([x] + g, [y], 1);
    DepthConcat([x] + g, [y]);
    SupportedConcat([x] + g + [y], [Drop], 1);
  }

  lemma TidyMandatory(c: seq<Instr>, k: int)
    requires Tidy(c)
    ensures Tidy([PushI32(k)] + c + [Instr.Loop(-(Length(c) + 5))] + [Drop])
  {
    var x, y := PushI32(k), Instr.Loop(-(Length(c) + 5));
    hide *;
    JumpSize2(x);
    JumpSize2(y);
    JumpSize2(Drop);
    SingleInstr(Drop);
    TidyParts(c);
    FrameMarks(x, c, y, [Drop]);
    TidyFrame(x, c, y, [Drop], 0, 1);
  }

  /** A piece behind a branch over it. */
  lemma TidyOver(x: Instr, m: seq<Instr>)
    requires Tidy(m) && Delta(x) == 0 && !x.Loop?
    requires IsJump(x) && x.offset == Length(m)
    ensures Tidy([x] + m)
  {
    hide *;
    TidyParts(m);
    ConcatParts([x], m);
    SingleInstr(x);
    LengthOne(x);
    OverMarks(x, m);
    LandsIntro([x] + m, 0, 1 + |m|);
    OverJumps(x, m);
    TidyIntro([x] + m);
  }

  /** A piece before a branch back to its start. */
  lemma TidyBack(m: seq<Instr>, y: Instr)
    requires Tidy(m) && Delta(y) == 0 && !y.Loop? && IsJump(y) && y.offset == -(Length(m) + Size(y))
    ensures Tidy(m + [y])
  {
    hide *;
    TidyParts(m);
    ConcatParts(m, [y]);
    SingleInstr(y);
    LengthOne(y);
    EmptyMarks();
    BackMarks(m, y);
    LandsIntro(m + [y], |m|, 0);
    BackJumps(m, y);
    TidyIntro(m + [y]);
  }

  lemma ConcatParts(a: seq<Instr>, b: seq<Instr>)
    ensures Length(a + b) == Length(a) + Length(b) && Depth(a + b) == Depth(a) + Depth(b)
    ensures Depth(a) == 0 && Supported(a, 0) && Supported(b, 0) ==> Supported(a + b, 0)
  {
    hide *;
    LengthConcat(a, b);
    DepthConcat(a, b);
    if Depth(a) == 0 && Supported(a, 0) && Supported(b, 0) {
      SupportedConcat(a, b, 0);
    }
  }

  lemma OverMarks(x: Instr, m: seq<Instr>)
    ensures ([x] + m)[..1] == [x] && ([x] + m)[..1 + |m|] == [x] + m && ([x] + m)[0] == x
  {
  }

  lemma BackMarks(m: seq<Instr>, y: Instr)
    ensures (m + [y])[..0] == [] && (m + [y])[..|m| + 1] == m + [y] && (m + [y])[|m|] == y
  {
  }

  lemma OverJumps(x: Instr, m: seq<Instr>)
    requires JumpsLand(m) && IsJump(x) && Lands([x] + m, 0)
    ensures JumpsLand([x] + m)
  {
    hide Lands;
    var w := [x] + m;
    forall i | 0 <= i < |w| && IsJump(w[i]) ensures Lands(w, i) {
      if i > 0 {
        LandsShift([x], m, [], i - 1);
        assert [x] + m + [] == w;
      }
    }
  }

  lemma BackJumps(m: seq<Instr>, y: Instr)
    requires JumpsLand(m) && IsJump(y) && Lands(m + [y], |m|)
    ensures JumpsLand(m + [y])
  {
    hide Lands;
    var w := m + [y];
    forall i | 0 <= i < |w| && IsJump(w[i]) ensures Lands(w, i) {
      if i < |m| {
        LandsShift([], m, [y], i);
        assert [] + m + [y] == w;
      }
    }
  }

  lemma TidyDirected(back: bool, i: Instr)
    requires IsCharInstr(i)
    ensures Tidy(Directed(back, i))
  {
    TidyOne(i);
    if back {
      TidyOne(Prev);
      TidyConcat([Prev], [i]);
      TidyConcat([Prev] + [i], [Prev]);
      assert Directed(back, i) == [Prev] + [i] + [Prev];
    }
  }

  lemma TidyOptional(g: seq<Instr>, min: int, max: int, greedy: bool)
    requires Tidy(g)
    ensures Tidy(OptionalCode(g, min, max, greedy))
  {
    hide Tidy;
    hide Length;
    hide LoopCode;
    if max == INFINITE {
      TidyLoop(g, greedy);
    } else if max <= min {
      TidyEmpty();
    } else if min == 0 && max == 1 {
      TidyOver(Branch(greedy, Length(g)), g);
    } else {
      TidyCounted(max - min, g, greedy);
    }
  }

  lemma TidyRepeat(c: seq<Instr>, groups: nat, cap: nat, min: int, max: int, greedy: bool)
    requires Tidy(c)
    ensures Tidy(RepeatCode(c, groups, cap, min, max, greedy))
  {
    hide Tidy;
    hide Length;
    hide SimpleCount;
    hide MayStay;
    hide OptionalCode;
    hide MandatoryCode;
    hide Guarded;
    hide PlusBranch;
    if IsSimpleRepeat(c, max, greedy) {
      TidySimple(c, min, max);
    } else if IsPlus(c, min, max) {
      TidyPlus(c, greedy);
    } else {
      TidyGuarded(MayStay(c), c);
      TidyOptional(Guarded(MayStay(c), c), min, max, greedy);
      TidyRequired(c, groups, cap, min);
      TidyConcat(MandatoryCode(c, groups, cap, min), OptionalCode(Guarded(MayStay(c), c), min, max, greedy));
    }
  }

  lemma TidySimple(c: seq<Instr>, min: int, max: int)
    requires Tidy(c)
    ensures Tidy([SimpleGreedyQuant(Length(c) + 1, min, max, SimpleCount(c))] + (c + [Match]))
  {
    hide *;
    QuantJumps(Length(c) + 1, min, max, SimpleCount(c));
    TidyOne(Match);
    TidyConcat(c, [Match]);
    LengthConcat(c, [Match]);
    Sizes(Match);
    TidyOver(SimpleGreedyQuant(Length(c) + 1, min, max, SimpleCount(c)), c + [Match]);
  }

  lemma QuantJumps(d: int, min: int, max: int, count: int)
    ensures var x := SimpleGreedyQuant(d, min, max, count); Delta(x) == 0 && IsJump(x)
    ensures Delta(Match) == 0 && !IsJump(Match)
  {
  }

  lemma TidyPlus(c: seq<Instr>, greedy: bool)
    requires Tidy(c)
    ensures Tidy(c + [PlusBranch(greedy, -(Length(c) + 5))])
  {
    hide *;
    PlusBranchIs(greedy, -(Length(c) + 5));
    TidyBack(c, PlusBranch(greedy, -(Length(c) + 5)));
  }

  lemma PlusBranchIs(greedy: bool, d: int)
    ensures var y := PlusBranch(greedy, d); Delta(y) == 0 && !y.Loop? && IsJump(y) && y.offset == d && Size(y) == 5
  {
  }

  lemma TidyRequired(c: seq<Instr>, groups: nat, cap: nat, min: int)
    requires Tidy(c)
    ensures Tidy(MandatoryCode(c, groups, cap, min))
  {
    hide Tidy;
    hide Length;
    if min > 1 {
      TidyMandatory(c, min);
    } else if min <= 0 {
      TidyEmpty();
      if groups > 0 {
        TidyOne(SaveReset(cap, cap + groups - 1));
      }
    }
  }

  /** The code of every pattern is tidy. */
  lemma {:induction false} CodeTidy(n: Node, back: bool, cap: nat)
    requires WellFormed(n)
    ensures Tidy(Code(n, back, cap))
    decreases n
  {
    hide *;
    match n
    case Cat(a, b) =>
      CatCode(n, back, cap);
      CodeTidy(a, back, cap);
      CodeTidy(b, back, cap + Groups(a));
      if back {
        TidyConcat(Code(b, back, cap + Groups(a)), Code(a, back, cap));
      } else {
        TidyConcat(Code(a, back, cap), Code(b, back, cap + Groups(a)));
      }
    case Alt(a, b) =>
      AltCode(n, back, cap);
      CodeTidy(a, back, cap);
      CodeTidy(b, back, cap + Groups(a));
      TidyAlt(Code(a, back, cap), Code(b, back, cap + Groups(a)));
    case Capture(a) =>
      CaptureCode(n, back, cap);
      CodeTidy(a, back, cap + 1);
      TidySave(back, cap, Code(a, back, cap + 1));
    case Look(negated, behind, a) =>
      LookCode(n, back, cap);
      CodeTidy(a, behind, cap);
      TidyLook(negated, Code(a, behind, cap));
    case Repeat(a, min, max, greedy) =>
      RepeatCodeIs(n, back, cap);
      CodeTidy(a, back, cap);
      TidyRepeat(Code(a, back, cap), Groups(a), cap, min, max, greedy);
    case _ => TidyLeaf(n, back, cap);
  }

  lemma TidySave(back: bool, cap: nat, c: seq<Instr>)
    requires Tidy(c)
    ensures Tidy([if back then SaveEnd(cap) else SaveStart(cap)] + c + [if back then SaveStart(cap) else SaveEnd(cap)])
  {
    hide Tidy;
    TidyWrap(if back then SaveEnd(cap) else SaveStart(cap), c, if back then SaveStart(cap) else SaveEnd(cap));
  }

  lemma TidyLook(negated: bool, c: seq<Instr>)
    requires Tidy(c)
    ensures Tidy(AroundCode(negated, c))
  {
    hide Tidy;
    hide Length;
    hide AroundCode;
    AroundCodeIs(negated, c);
    TidyWrap(if negated then NegativeLookahead(Length(c) + 1) else Lookahead(Length(c) + 1), c, Match);
  }

  lemma RepeatCodeIs(n: Node, back: bool, cap: nat)
    requires WellFormed(n) && n.Repeat?
    ensures WellFormed(n.body)
    ensures Code(n, back, cap) == RepeatCode(Code(n.body, back, cap), Groups(n.body), cap, n.min, n.max, n.greedy)
  {
    hide RepeatCode;
  }

  lemma TidyLeaf(n: Node, back: bool, cap: nat)
    requires WellFormed(n) && !n.Cat? && !n.Alt? && !n.Capture? && !n.Look? && !n.Repeat?
    ensures Tidy(Code(n, back, cap))
  {
    hide Tidy;
    hide Directed;
    match n
    case Empty => TidyEmpty();
    case Char(c) => TidyDirected(back, CharInstr(c));
    case AnyChar(b) => TidyDirected(back, if b then Any else Dot);
    case Class(p) => TidyDirected(back, ClassInstr(p));
    case LineStart => TidyOne(Instr.LineStart);
    case LineEnd => TidyOne(Instr.LineEnd);
    case WordBoundary(negated) => TidyOne(if negated then NotWordBoundary else Instr.WordBoundary);
    case BackRef(g) => TidyOne(if back then BackwardBackReference(g) else BackReference(g));
  }

  /** So is the whole program, search prefix included. */
  lemma ProgramTidy(n: Node, sticky: bool)
    requires WellFormed(n)
    ensures Tidy(Program(n, sticky))
  {
    hide Tidy;
    hide Code;
    var body := Code(Capture(n), false, 0) + [Match];
    CodeTidy(Capture(n), false, 0);
    TidyOne(Match);
    TidyConcat(Code(Capture(n), false, 0), [Match]);
    if !sticky {
      PrefixTidy();
      TidyConcat(SearchPrefix(), body);
    } else {
      assert [] + body == body;
    }
  }

  lemma PrefixTidy()
    ensures Tidy(SearchPrefix())
  {
    var x, y := SplitGotoFirst(6), Goto(-11);
    TidyOne(Any);
    TidyEmpty();
    TidyParts([]);
    EmptyMarks();
    JumpSize(x);
    JumpSize(y);
    LengthOne(Any);
    assert Size(Any) == 1;
    FrameMarks(x, [Any], y, []);
    assert SearchPrefix() == [x] + [Any] + [y] + [];
    hide Tidy;
    hide Length;
    hide Supported;
    hide JumpsLand;
    hide Size;
    hide Depth;
    TidyFrame(x, [Any], y, [], 3, 0);
  }

  lemma ProgramIs(n: Node, sticky: bool)
    requires WellFormed(n)
    ensures WellFormed(Capture(n)) && Groups(Capture(n)) == 1 + Groups(n)
    ensures Program(n, sticky) == (if sticky then [] else SearchPrefix()) + (Code(Capture(n), false, 0) + [Match])
  {
    hide Code;
    hide SearchPrefix;
  }
}
