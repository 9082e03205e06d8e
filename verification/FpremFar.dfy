/** fprem and fprem1 when the exponents differ by 64 or more: one step of a reduction
    that the program repeats until C2 is clear. What a step leaves, when that is right,
    and that right steps lead to the remainder of the operands the program began with. */
module FpremFar {
  import opened Arith
  import opened Powers
  import opened Rounding
  import opened FpuRegs
  import opened FpuState
  import opened Compare
  import opened StackOps
  import opened StackRuns
  import opened Fprem
  import opened FpremExact

  ghost predicate GoesFar(s: State) {
    Numbers(s) && Difference16(s.St(0), s.St(1)) >= 64 && (AnyDenormal(s) ==> s.cw.masks.denormOp)
  }

  // ----- values -----

  /** What a step leaves, as a magnitude. */
  function PartialMag(x: Reg, y: Reg): nat
    requires Numeric(x) && Numeric(y) && Difference16(x, y) >= 64
  {
    MagOf(PartialOf(x, y), PartialExponent(x, y))
  }

  /** The divisor, times the power of two that a step reduces by a multiple of. */
  function Multiple(x: Reg, y: Reg): nat
    requires Numeric(x) && Numeric(y) && Difference16(x, y) >= 64
  {
    var d := Difference16(x, y);
    Mag(y) * Pow2(d - StepSize(d))
  }

  /** rem_kernel gets an exponent that is one too small, and what that spoils shows. */
  predicate StepFails(x: Reg, y: Reg)
    requires Numeric(x) && Numeric(y) && Difference16(x, y) >= 64
  {
    ToExp16Keeps(x);
    ToExp16Keeps(y);
    ShiftShort(ToExp16(x).Sig(), ToExp16(y).Sig(), StepSize(Difference16(x, y)))
  }

  lemma FarAligned(x: Reg, y: Reg, n: nat, g: nat)
    requires Numeric(x) && Numeric(y) && Difference16(x, y) >= 64
    requires n == StepSize(Difference16(x, y)) && g == Pow2(PartialExponent(x, y) + 16445)
    ensures Mag(x) == ToExp16(x).Sig() * Pow2(n) * g
    ensures Multiple(x, y) == ToExp16(y).Sig() * g
    ensures PartialMag(x, y) == PartialOf(x, y) * g
  {
    hide Pow2, LeadingZeros, Mag, Partial;
    ToExp16Keeps(x);
    ToExp16Keeps(y);
    var a := PartialExponent(x, y) + 16445;
    var d, b := Difference16(x, y), ToExp16(y).Exponent16() + 16445;
    Pow2Add(n, a);
    MulAssoc(ToExp16(x).Sig(), Pow2(n), g);
    Pow2Add(b, d - n);
    MulAssoc(ToExp16(y).Sig(), Pow2(b), Pow2(d - n));
  }

  /** A step leaves exactly x mod y * 2^(d - n) if and only if it does not fail, where d
      is the difference of the exponents and n the size of the step. */
  lemma StepExactIff(x: Reg, y: Reg)
    requires Numeric(x) && Numeric(y) && Difference16(x, y) >= 64
    ensures Multiple(x, y) > 0
    ensures PartialMag(x, y) == Mag(x) % Multiple(x, y) <==> !StepFails(x, y)
  {
    hide Pow2, LeadingZeros, Mag, Partial, Multiple, ShiftShort;
    ToExp16Keeps(x);
    ToExp16Keeps(y);
    var n, g := StepSize(Difference16(x, y)), Pow2(PartialExponent(x, y) + 16445);
    var s0, s1 := ToExp16(x).Sig(), ToExp16(y).Sig();
    FarAligned(x, y, n, g);
    MulAtLeast(s1, g);
    PartialIff(s0, s1, n);
    ScaledEqual(PartialOf(x, y), s0 * Pow2(n), s1, g);
  }

  lemma ScaledEqual(t: nat, x: nat, y: nat, g: nat)
    requires y > 0 && g > 0
    ensures y * g > 0 && (t * g == x * g % (y * g) <==> t == x % y)
  {
    DivModScale(x, y, g);
    if t < x % y { MulStrict(t, x % y, g); }
    if x % y < t { MulStrict(x % y, t, g); }
  }

  /** What is left after a step that does not fail has the remainder of the dividend, and
      is below the multiple of the divisor. */
  lemma StepKeepsRemainder(x: Reg, y: Reg)
    requires Numeric(x) && Numeric(y) && Difference16(x, y) >= 64 && !StepFails(x, y)
    ensures Mag(y) > 0 && PartialMag(x, y) < Multiple(x, y)
    ensures PartialMag(x, y) % Mag(y) == Mag(x) % Mag(y)
  {
    hide Pow2, LeadingZeros, Mag, Partial, ShiftShort, PartialMag, StepFails;
    StepExactIff(x, y);
    NumericPositive(y);
    var d := Difference16(x, y);
    RemainderOfRemainder(Mag(x), Mag(y), Pow2(d - StepSize(d)));
  }

  lemma RemainderOfRemainder(x: nat, y: nat, k: nat)
    requires y > 0 && k > 0
    ensures y * k > 0 && x % (y * k) % y == x % y
  {
    MulAtLeast(k, y);
    Commute(y, k);
    var q, r := x / (y * k), x % (y * k);
    assert x == q * (y * k) + r;
    Commute(y, k);
    MulAssoc(q, k, y);
    ModEqual(x, r, q * k, y);
  }

  // ----- what a step leaves -----

  lemma ThreeMultiples(t: nat, a: nat, b: nat, q: nat, k: int, g: nat, i: nat, j: nat, l: nat, p: nat)
    requires p > 0 && t == a - b * q - k * TWO64 && a * g == i * p && b * g == j * p && TWO64 * g == l * p
    ensures t * g % p == 0
  {
    MulDistribute(a - b * q, 0 - k * TWO64, g);
    MulDistribute(a, 0 - b * q, g);
    assert b * q * g == q * j * p by { Commute(b, q); MulAssoc(q, b, g); MulAssoc(q, j, p); }
    assert k * TWO64 * g == k * l * p by { MulAssoc(k, TWO64, g); MulAssoc(k, l, p); }
    MulDistribute(i - q * j, 0 - k * l, p);
    MulDistribute(i, 0 - q * j, p);
    assert t * g == (i - q * j - k * l) * p;
    DivModUnique(t * g, i - q * j - k * l, 0, p);
  }

  lemma PowerMultiple(s: nat, w: nat, a: nat)
    requires w + a >= 63
    ensures s * Pow2(w) * Pow2(a) == s * Pow2(w + a - 63) * Pow2(63)
  {
    hide Pow2;
    Pow2Add(w, a);
    MulAssoc(s, Pow2(w), Pow2(a));
    Pow2Add(w + a - 63, 63);
    MulAssoc(s, Pow2(w + a - 63), Pow2(63));
  }

  lemma DivisorMultiple(y: Reg, k: nat)
    ensures Mag(y) * Pow2(k) == Units(y) * Pow2(k) * Pow2(63)
  {
    hide Pow2;
    MagIsMultiple(y);
    MulAssoc(Units(y), Pow2(63), Pow2(k));
    Commute(Pow2(63), Pow2(k));
    MulAssoc(Units(y), Pow2(k), Pow2(63));
  }

  /** Right or wrong, a step leaves a multiple of the smallest denormal. */
  lemma FarMultiple(x: Reg, y: Reg)
    requires Numeric(x) && Numeric(y) && Difference16(x, y) >= 64
    ensures PartialMag(x, y) % Pow2(63) == 0
  {
    hide Pow2, LeadingZeros, Mag, Partial, UDiv, Units, ToExp16;
    ToExp16Keeps(x);
    ToExp16Keeps(y);
    var d, s0, s1, a := Difference16(x, y), ToExp16(x).Sig(), ToExp16(y).Sig(), PartialExponent(x, y) + 16445;
    var n, g := StepSize(d), Pow2(a);
    var w := if s0 >= s1 then n else n - 1;
    FarAligned(x, y, n, g);
    FloorAtMost(s0 * Pow2(n), s1);
    var q: nat := s0 * Pow2(n) / s1;
    PartialIs(s0, s1, n, q);
    PowerMultiple(s0, w, a);
    DivisorMultiple(y, d - n);
    Pow2Values();
    PowerMultiple(1, 64, a);
    var b := s0 * Pow2(w) - s1 * q;
    assert PartialOf(x, y) == b - b / TWO64 * TWO64;
    ThreeMultiples(PartialOf(x, y), s0 * Pow2(w), s1, q, b / TWO64, g, s0 * Pow2(w + a - 63),
                   Units(y) * Pow2(d - n), 1 * Pow2(64 + a - 63), Pow2(63));
  }

  /** st(0) becomes m with its own sign, but a positive zero when m is 0; m is scaled if
      it is tiny and the underflow is not masked. C2 alone says that this is not the end. */
  ghost predicate LeavesPart(s: State, s': State, m: nat) {
    var r := s'.St(0);
    && r.Neg() == (s.St(0).Neg() && m > 0) && s'.Tagi(0) == TagOf(r)
    && Mag(r) == (if !s.cw.masks.underflow && TinyMagnitude(m) then m * Pow2(MAGIC) else m)
    && s'.sw.c2 && !s'.sw.c0 && !s'.sw.c1 && !s'.sw.c3
    && s'.cw == s.cw && s'.top == s.top && (forall j: nat :: j < 8 && j != s.Phys(0) ==> Same(s, s', j))
  }

  lemma PutLeaves(s: State, sw: Status, r: Reg, t: Tag)
    requires StackTag(t)
    ensures var s' := s.(sw := sw).Put(0, r, t);
      && s'.St(0) == r && s'.Tagi(0) == t && s'.sw == sw && s'.cw == s.cw && s'.top == s.top
      && forall j: nat :: j < 8 && j != s.Phys(0) ==> Same(s, s', j)
  {
    hide GetTag, SetTag;
    var s1 := s.(sw := sw);
    PutBack(s1, r, t);
    forall j: nat | j < 8 && j != s.Phys(0) ensures Same(s, s1.Put(0, r, t), j) { PutSame(s1, 0, r, t, j); }
  }

  lemma UnfinishedStays(cw: Control, sw: Status, t: u64, e: int, neg: bool)
    requires -16446 <= e <= EXP_OVER - 1
    ensures var x := Finish(cw, Unfinished(sw), t, e, neg).sw; x.c2 && !x.c0 && !x.c1 && !x.c3
  {
    hide Pow2, LeadingZeros, Exception, MakeReg, ShiftRight;
    UnderflowKeepsConditions(cw, Unfinished(sw));
  }

  lemma PackPartialLeaves(s: State)
    requires Numbers(s) && Difference16(s.St(0), s.St(1)) >= 64
    ensures LeavesPart(s, PackPartial(s), PartialMag(s.St(0), s.St(1)))
  {
    hide Pow2, LeadingZeros, MagOf, Mag, TagOf, Finish, Tiny, Same, GetTag, SetTag, PartialOf, Numeric, Difference16,
         PartialExponent;
    var x, y := s.St(0), s.St(1);
    var t, e := PartialOf(x, y), PartialExponent(x, y);
    if t == 0 {
      PackedSmall(false, 0);
      FpremExact.ZeroMag(e);
      PutLeaves(s, Unfinished(s.sw), CONST_Z, Zero);
    } else {
      FarMultiple(x, y);
      TinyIff(t, e);
      FinishExact(s.cw, Unfinished(s.sw), t, e, x.Neg());
      UnfinishedStays(s.cw, s.sw, t, e, x.Neg());
      MagPositive(t, e);
      var f := Finish(s.cw, Unfinished(s.sw), t, e, x.Neg());
      TagIsStackTag(f.r);
      PutLeaves(s, f.sw, f.r, f.tag);
    }
  }

  lemma TagIsStackTag(r: Reg)
    ensures StackTag(TagOf(r))
  {
  }

  lemma MagPositive(t: nat, e: int)
    requires t > 0 && e >= -16445
    ensures MagOf(t, e) > 0
  {
    hide Pow2;
    MulAtLeast(t, Pow2(e + 16445));
  }

  lemma GoingFar(s: State, nearest: bool)
    requires Inv(s) && GoesFar(s)
    ensures var s1 := AfterDenormal(s, AnyDenormal(s));
      && Numbers(s1) && s1.St(0) == s.St(0) && s1.St(1) == s.St(1)
      && DoFpremSpec(s, nearest) == PackPartial(s1)
  {
    hide Kind, TagOf, Numeric, IsNaN, Difference16, DenormalOperand, GetTag, StackUnderflow, SummaryTrue, PackPartial;
    TagTrue(s, 0);
    TagTrue(s, 1);
    NumberKind(s.St(0));
    NumberKind(s.St(1));
  }

  /** One step of fprem or fprem1. */
  lemma StepLeaves(s: State, nearest: bool)
    requires Inv(s) && GoesFar(s)
    ensures LeavesPart(s, DoFpremSpec(s, nearest), PartialMag(s.St(0), s.St(1)))
  {
    hide Kind, TagOf, Numeric, IsNaN, Difference16, DenormalOperand, GetTag, DoFpremSpec, PackPartial, Mag, PartialMag;
    var s1 := AfterDenormal(s, AnyDenormal(s));
    GoingFar(s, nearest);
    PackPartialLeaves(s1);
    forall j: nat | j < 8 && j != s.Phys(0) ensures Same(s, PackPartial(s1), j) {
      assert Same(s1, PackPartial(s1), j);
    }
  }

  // ----- repeated steps -----

  /** Eight times the divisor: what is equal mod this has the same remainder and the same
      low three bits of the quotient. */
  function Eightfold(y: Reg): nat { 8 * Mag(y) }

  lemma StepPower(d: int)
    requires d >= 64
    ensures d - StepSize(d) >= 32 && Pow2(d - StepSize(d)) == Pow2(d - StepSize(d) - 3) * 8
  {
    hide Pow2;
    var k := d - StepSize(d);
    assert d == d / 32 * 32 + d % 32;
    Pow2Add(k - 3, 3);
    assert Pow2(3) == 8 by { Eight(); }
  }

  lemma Eight()
    ensures Pow2(3) == 8
  {
    assert Pow2(1) == 2 && Pow2(2) == 4;
  }

  lemma StepKeepsEightfold(x: Reg, y: Reg)
    requires Numeric(x) && Numeric(y) && Difference16(x, y) >= 64 && !StepFails(x, y)
    ensures Eightfold(y) > 0 && PartialMag(x, y) % Eightfold(y) == Mag(x) % Eightfold(y)
  {
    hide Pow2, LeadingZeros, Mag, Partial, ShiftShort, PartialMag, StepFails;
    StepExactIff(x, y);
    NumericPositive(y);
    var d := Difference16(x, y);
    var k := Pow2(d - StepSize(d) - 3);
    StepPower(d);
    RemainderOfRemainder(Mag(x), Eightfold(y), k);
    MulAssoc(Mag(y), k, 8);
    Commute(Mag(y) * k, 8);
    MulAssoc(8, Mag(y), k);
  }

  lemma SameBits(x: nat, x': nat, y: nat)
    requires y > 0 && x % (8 * y) == x' % (8 * y)
    ensures x % y == x' % y && x / y % 8 == x' / y % 8
  {
    QuotientOf(x, y);
    QuotientOf(x', y);
  }

  lemma QuotientOf(x: nat, y: nat)
    requires y > 0
    ensures var r := x % (8 * y); x % y == r % y && x / y % 8 == r / y % 8
  {
    var c, r := x / (8 * y), x % (8 * y);
    assert x == c * (8 * y) + r;
    MulAssoc(c, 8, y);
    assert r == r / y * y + r % y;
    MulDistribute(c * 8, r / y, y);
    DivModUnique(x, c * 8 + r / y, r % y, y);
    ModEqual(c * 8 + r / y, r / y, c, 8);
  }

  lemma SameNearest(x: nat, x': nat, y: nat)
    requires y > 0 && x % (8 * y) == x' % (8 * y)
    ensures var q, q' := RoundMag(RND, false, x, y), RoundMag(RND, false, x', y);
      && q % 8 == q' % 8 && Dist(x, q * y) == Dist(x', q' * y) && (q * y > x <==> q' * y > x')
  {
    hide RoundMag, Dist;
    SameBits(x, x', y);
    NearestParts(x, y);
    NearestParts(x', y);
    var up := 2 * (x % y) > y || (2 * (x % y) == y && x / y % 8 % 2 == 1);
    if up { ModAddLeft(x / y, 1, 8); ModAddLeft(x' / y, 1, 8); }
  }

  /** The nearest multiple, from the remainder and the parity of the quotient. */
  lemma NearestParts(x: nat, y: nat)
    requires y > 0
    ensures var q, r := RoundMag(RND, false, x, y), x % y;
      var up := 2 * r > y || (2 * r == y && x / y % 8 % 2 == 1);
      && q == x / y + (if up then 1 else 0)
      && Dist(x, q * y) == (if up then y - r else r) && (q * y > x <==> up)
  {
    ModMod(x / y);
    assert x == x / y * y + x % y;
    MulDistribute(x / y, 1, y);
  }

  lemma ModMod(f: nat)
    ensures f % 8 % 2 == f % 2
  {
  }

  /** The state after k executions of fprem, or of fprem1. */
  function Repeated(s: State, nearest: bool, k: nat): State
    decreases k
  {
    if k == 0 then s else Repeated(DoFpremSpec(s, nearest), nearest, k - 1)
  }

  /** The next k executions are steps that do not fail and do not raise an underflow. */
  ghost predicate RightSteps(s: State, nearest: bool, k: nat)
    decreases k
  {
    k == 0 ||
    (&& GoesFar(s) && !StepFails(s.St(0), s.St(1))
     && (s.cw.masks.underflow || !TinyMagnitude(PartialMag(s.St(0), s.St(1))))
     && RightSteps(DoFpremSpec(s, nearest), nearest, k - 1))
  }

  lemma PartTrueTags(s: State, s': State, m: nat)
    requires TagsTrue(s.tw, s.st) && LeavesPart(s, s', m)
    ensures TagsTrue(s'.tw, s'.st)
  {
    hide Pow2, Mag, TinyMagnitude, TagOf, GetTag;
    forall j: nat | j < 8 ensures GetTag(s'.tw, j) == Empty || GetTag(s'.tw, j) == TagOf(s'.st[j]) {
      if j == s.Phys(0) {
        assert s'.Tagi(0) == TagOf(s'.St(0));
      } else {
        assert Same(s, s', j);
        assert GetTag(s.tw, j) == Empty || GetTag(s.tw, j) == TagOf(s.st[j]);
      }
    }
  }

  lemma FinishSummary(cw: Control, sw: Status, t: u64, e: int, neg: bool)
    requires SummaryTrue(cw, sw) && -16446 <= e <= EXP_OVER - 1
    ensures SummaryTrue(cw, Finish(cw, Unfinished(sw), t, e, neg).sw) && SummaryTrue(cw, Unfinished(sw))
  {
    hide Pow2, LeadingZeros, Exception, MakeReg, ShiftRight, SomeUnmasked;
    UnfinishedSummary(cw, sw);
    ExceptionKeepsSummary(cw, Unfinished(sw), Underflow);
  }

  lemma UnfinishedSummary(cw: Control, sw: Status)
    requires SummaryTrue(cw, sw)
    ensures SummaryTrue(cw, Unfinished(sw))
  {
    hide SomeUnmasked;
  }

  /** A step keeps the invariant of every run, right or wrong. */
  lemma FarKeeps(s: State, nearest: bool)
    requires Inv(s) && GoesFar(s)
    ensures Inv(DoFpremSpec(s, nearest))
  {
    hide Finish, PartialOf, PartialExponent, GetTag, SetTag, SummaryTrue, DoFpremSpec, LeavesPart, Difference16,
         Numeric, DenormalOperand, TagsTrue;
    var s1 := AfterDenormal(s, AnyDenormal(s));
    AfterDenormalKeeps(s, AnyDenormal(s));
    GoingFar(s, nearest);
    var x, y := s.St(0), s.St(1);
    FinishSummary(s1.cw, s1.sw, PartialOf(x, y), PartialExponent(x, y), x.Neg());
    StepLeaves(s, nearest);
    PartTrueTags(s, DoFpremSpec(s, nearest), PartialMag(x, y));
  }

  /** No register but st(0) changes. */
  ghost predicate OthersSame(s: State, s': State) {
    s'.top == s.top && forall j: nat :: j < 8 && j != s.Phys(0) ==> Same(s, s', j)
  }

  lemma OthersChain(s: State, s1: State, s2: State)
    requires OthersSame(s, s1) && OthersSame(s1, s2)
    ensures OthersSame(s, s2)
  {
    hide GetTag;
    forall j: nat | j < 8 && j != s.Phys(0) ensures Same(s, s2, j) { assert Same(s, s1, j) && Same(s1, s2, j); }
  }

  lemma SecondStays(s: State, s': State)
    requires OthersSame(s, s')
    ensures s'.St(1) == s.St(1) && s'.Tagi(1) == s.Tagi(1)
  {
    assert s.Phys(1) != s.Phys(0);
    assert Same(s, s', s.Phys(1));
  }

  /** All that matters of the operands stays the same through right steps. */
  lemma {:induction false} RepeatedKeeps(s: State, nearest: bool, k: nat)
    requires Inv(s) && RightSteps(s, nearest, k) && Mag(s.St(1)) > 0
    ensures var e := Repeated(s, nearest, k);
      && Inv(e) && e.cw == s.cw && e.St(1) == s.St(1) && OthersSame(s, e)
      && Mag(e.St(0)) % Eightfold(s.St(1)) == Mag(s.St(0)) % Eightfold(s.St(1))
      && (Mag(e.St(0)) > 0 ==> e.St(0).Neg() == s.St(0).Neg())
    decreases k
  {
    hide Mag, Numeric, Difference16, TagOf, GetTag, DoFpremSpec, PartialMag, StepFails, TinyMagnitude, Inv, Eightfold;
    if k > 0 {
      var x, y, s1 := s.St(0), s.St(1), DoFpremSpec(s, nearest);
      FarKeeps(s, nearest);
      StepLeaves(s, nearest);
      SecondStays(s, s1);
      StepKeepsEightfold(x, y);
      RepeatedKeeps(s1, nearest, k - 1);
      if k > 1 { NumericPositive(s1.St(0)); }
      OthersChain(s, s1, Repeated(s1, nearest, k - 1));
    } else {
      OthersSelf(s);
    }
  }

  lemma OthersSelf(s: State)
    ensures OthersSame(s, s)
  {
  }

  lemma LeavesFrom(s: State, e: State, s': State, t: int, q: int, q': int, flip: bool, scaled: bool)
    requires Leaves(e, s', t, q', flip, scaled) && OthersSame(s, e) && e.St(0).Neg() == s.St(0).Neg()
    requires q % 8 == q' % 8
    ensures Leaves(s, s', t, q, flip, scaled)
  {
    hide Pow2, Mag, TagOf, GetTag;
    ThreeBits(q, q');
    assert OthersSame(e, s');
    OthersChain(s, e, s');
  }

  lemma ThreeBits(q: int, q': int)
    requires q % 8 == q' % 8
    ensures q % 2 == q' % 2 && q / 2 % 2 == q' / 2 % 2 && q / 4 % 2 == q' / 4 % 2
  {
    var c := q / 8 - q' / 8;
    assert q == q' + 8 * c;
    ModEqual(q, q', 4 * c, 2);
    DivModUnique(q, q' / 2 + 4 * c, q' % 2, 2);
    ModEqual(q' / 2 + 4 * c, q' / 2, 2 * c, 2);
    DivModUnique(q, q' / 4 + 2 * c, q' % 4, 4);
    ModEqual(q' / 4 + 2 * c, q' / 4, c, 2);
  }

  /** A program that repeats fprem through right steps, and then once more, holds the
      remainder of the operands that it began with, the dividend's sign, and the low bits
      of the whole quotient. */
  lemma RepeatedFprem(s: State, k: nat)
    requires Inv(s) && Mag(s.St(1)) > 0 && RightSteps(s, false, k) && GoesOn(Repeated(s, false, k))
    ensures var e, x, y := Repeated(s, false, k), Mag(s.St(0)), Mag(s.St(1));
      Leaves(s, DoFpremSpec(e, false), x % y, x / y, false, Scales(e, x % y))
  {
    hide Mag, Numeric, Difference16, TagOf, GetTag, DoFpremSpec, TinyMagnitude, Inv, RightSteps, Leaves;
    var e := Repeated(s, false, k);
    RepeatedKeeps(s, false, k);
    NumericPositive(e.St(0));
    FpremExactly(e);
    SameBits(Mag(e.St(0)), Mag(s.St(0)), Mag(s.St(1)));
    var t := Mag(s.St(0)) % Mag(s.St(1));
    LeavesFrom(s, e, DoFpremSpec(e, false), t, Mag(s.St(0)) / Mag(s.St(1)), Mag(e.St(0)) / Mag(s.St(1)), false,
               Scales(e, t));
  }

  /** The same for fprem1 and the nearest multiple. */
  lemma RepeatedFprem1(s: State, k: nat)
    requires Inv(s) && Mag(s.St(1)) > 0 && RightSteps(s, true, k) && GoesOn(Repeated(s, true, k))
    requires !CarryLost(Repeated(s, true, k).St(0), Repeated(s, true, k).St(1))
    ensures var e, x, y := Repeated(s, true, k), Mag(s.St(0)), Mag(s.St(1));
      var q := RoundMag(RND, false, x, y);
      Leaves(s, DoFpremSpec(e, true), Dist(x, q * y), q, q * y > x, Scales(e, Dist(x, q * y)))
  {
    hide Mag, Numeric, Difference16, TagOf, GetTag, DoFpremSpec, TinyMagnitude, Inv, RightSteps, Leaves, RoundMag;
    var e := Repeated(s, true, k);
    RepeatedKeeps(s, true, k);
    NumericPositive(e.St(0));
    Fprem1Exactly(e);
    var x, x', y := Mag(s.St(0)), Mag(e.St(0)), Mag(s.St(1));
    SameNearest(x, x', y);
    var q := RoundMag(RND, false, x, y);
    LeavesFrom(s, e, DoFpremSpec(e, true), Dist(x, q * y), q, RoundMag(RND, false, x', y), q * y > x,
               Scales(e, Dist(x, q * y)));
  }

  /** A step that does not fail lowers the difference of the exponents by at least its
      size, so that the program comes to an end. */
  lemma StepLowers(x: Reg, y: Reg, r: Reg)
    requires Numeric(x) && Numeric(y) && Difference16(x, y) >= 64 && !StepFails(x, y)
    requires Numeric(r) && Mag(r) == PartialMag(x, y)
    ensures Difference16(r, y) <= Difference16(x, y) - StepSize(Difference16(x, y))
  {
    hide Pow2, LeadingZeros, Mag, Partial, PartialMag, StepFails, ToExp16;
    ToExp16Keeps(y);
    ToExp16Keeps(r);
    StepKeepsRemainder(x, y);
    var k, sy, ey := Difference16(x, y) - StepSize(Difference16(x, y)), ToExp16(y).Sig(), ToExp16(y).Exponent16();
    Pow2Add(ey + 16445, k);
    MulAssoc(sy, Pow2(ey + 16445), Pow2(k));
    MagOrder(sy, ey + k, ToExp16(r).Sig(), ToExp16(r).Exponent16());
  }

  // ----- what goes wrong -----

  lemma Operands(x: Reg, y: Reg)
    requires x == Reg(1, BIT31, 0x403f) && y == Reg(0, 0xc000_0000, 0x3fff)
    ensures Numeric(x) && Numeric(y) && Difference16(x, y) == 64
    ensures ToExp16(x).Sig() == TWO63 + 1 && ToExp16(y).Sig() == TWO63 + TWO63 / 2
  {
    hide Pow2, LeadingZeros;
  }

  /** A step that fails: (2^63 + 1) * 2 by 1.5. */
  lemma FailingStep(x: Reg, y: Reg)
    requires x == Reg(1, BIT31, 0x403f) && y == Reg(0, 0xc000_0000, 0x3fff)
    ensures Numeric(x) && Numeric(y) && Difference16(x, y) == 64
    ensures Multiple(x, y) > 0 && PartialMag(x, y) != Mag(x) % Multiple(x, y)
  {
    hide Pow2, Mag, PartialMag, Multiple, ToExp16, Numeric, Difference16, ShiftShort;
    Operands(x, y);
    PartialGoesWrong();
    StepExactIff(x, y);
  }

  /** -2^64 by 1 is finished in one step, and C2 is set nevertheless. */
  lemma ZeroStep()
    ensures var x, y := Reg(0, BIT31, 0xc03f), CONST_1;
      && Numeric(x) && Numeric(y) && x.Neg() && Difference16(x, y) == 64 && PartialMag(x, y) == 0
  {
    hide Pow2, Mag, Partial;
    var x, y := Reg(0, BIT31, 0xc03f), CONST_1;
    var n, g := StepSize(64), Pow2(PartialExponent(x, y) + 16445);
    StepExactIff(x, y);
    FarAligned(x, y, n, g);
    MulAssoc(TWO63, Pow2(n), g);
    Commute(Pow2(n), g);
    MulAssoc(TWO63, g, Pow2(n));
    Commute(TWO63 * g, Pow2(n));
    DivModUnique(Mag(x), Pow2(n), 0, TWO63 * g);
  }

  /** A step that reaches zero gives it a positive sign: setsign changes the local copy.
      It is the dividend's sign if and only if that was positive. */
  lemma ZeroSignIff(s: State, nearest: bool)
    requires Inv(s) && GoesFar(s)
    ensures var m, s' := PartialMag(s.St(0), s.St(1)), DoFpremSpec(s, nearest);
      s'.St(0).Neg() == s.St(0).Neg() <==> m > 0 || !s.St(0).Neg()
  {
    hide Mag, Numeric, Difference16, TagOf, GetTag, DoFpremSpec, PartialMag, TinyMagnitude, Inv, Same;
    StepLeaves(s, nearest);
  }
}
