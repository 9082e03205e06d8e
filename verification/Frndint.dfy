/** frndint_ of extras/x87-emu/fpu_trig.c: st(0) rounded to an integer in place. What it
    leaves there is right; what it leaves in C1 is not always. */
module Frndint {
  import opened Arith
  import opened Powers
  import opened Rounding
  import opened FpuRegs
  import opened FpuState
  import opened FpuMachine
  import opened StoreReal
  import opened LoadReal
  import opened IntegerData
  import opened PackedDecimal
  import opened Compare
  import opened StackOps
  import opened StackRuns
  import opened StackCode
  import opened LoadStoreCode
  import opened StackMeaning

  // ----- frndint as a function -----

  predicate IsNumber(s: State) {
    s.Tagi(0) != Empty && (Kind(s.St(0), s.Tagi(0)) == Valid || Kind(s.St(0), s.Tagi(0)) == Denormal)
  }

  predicate StopsOnDenormal(s: State) { Kind(s.St(0), s.Tagi(0)) == Denormal && !s.cw.masks.denormOp }

  function RoundingStatus(cw: Control, sw: Status, r: Reg, kind: Tag): Status {
    var sw1, code := if kind == Denormal then DenormalOperand(cw, sw) else sw, RoundingCode(cw.rc, r, kind);
    if code == Exact then sw1 else SetPrecisionFlag(cw, sw1, code == LostUp)
  }

  function RoundedSt0(s: State): Reg { IntReg(s.St(0).Neg(), RoundedSig(s.cw.rc, s.St(0), Kind(s.St(0), s.Tagi(0)))) }

  function FrndintNumber(s: State): State {
    var r, kind := s.St(0), Kind(s.St(0), s.Tagi(0));
    if r.Exponent() > 63 then s
    else if StopsOnDenormal(s) then s.(sw := DenormalOperand(s.cw, s.sw))
    else s.(sw := RoundingStatus(s.cw, s.sw, r, kind)).Put(0, RoundedSt0(s), TagOf(RoundedSt0(s)))
  }

  /** real_1op_NaN on st(0) itself. */
  function QuietSt0(s: State): State {
    var (r, sw, _) := RealNaN(s.cw, s.sw, s.St(0));
    s.(sw := sw, st := s.st[s.Phys(0) := r])
  }

  function FrndintSpec(s: State): State {
    var kind := Kind(s.St(0), s.Tagi(0));
    if kind == Empty then StackUnderflow(s, 0)
    else if kind == Valid || kind == Denormal then FrndintNumber(s)
    else if kind == Zero || kind == Infinity then s
    else QuietSt0(s)
  }

  // ----- the code -----

  /** setexponent16(63), FPU_normalize (reg_norm.S) and setsign: from an exponent of 63
      normalising neither overflows nor underflows. */
  method NormalizeInteger(r: FpuReg, neg: bool) returns (tag: Tag)
    modifies r
    ensures r.Val() == IntReg(neg, old(r.Val()).Sig()) && tag == TagOf(r.Val())
  {
    if r.Val().Sig() == 0 {
      r.Set(MakeReg(neg, 0, 0));
      return Zero;
    }
    tag := NormalizeNoExcep(r, 63, neg);
  }

  method FrndintCode(f: Fpu)
    requires f.Valid() && StackTag(f.GetTagi(0))
    modifies f`partialStatus, f`tagWord, f.regs
    ensures f.S() == FrndintSpec(old(f.S()))
  {
    hide GetTag, SetTag, Exception, RoundedSig, RoundingCode, RealNaN, IntReg, TagOf;
    var tag := f.GetTagi(0);
    if tag == Special { tag := SpecialKind(f.St(0)); }
    if tag == Valid || tag == Denormal {
      FrndintNumberCode(f, tag);
    } else if tag == Empty {
      FpuStackUnderflow(f, 0);
    } else if tag == NaN {
      var st0 := new FpuReg(f.St(0));
      var _ := RealOneOpNaN(f, st0);
      f.regs[f.Phys(0)] := st0.Val();
    }
  }

  method FrndintNumberCode(f: Fpu, kind: Tag)
    requires f.Valid() && kind == Kind(f.St(0), f.GetTagi(0)) && (kind == Valid || kind == Denormal)
    modifies f`partialStatus, f`tagWord, f.regs
    ensures f.S() == FrndintNumber(old(f.S()))
  {
    hide GetTag, SetTag, Exception, RoundedSig, RoundingCode, IntReg, TagOf;
    var st0 := new FpuReg(f.St(0));
    var sign := st0.Val().Neg();
    if st0.Val().Exponent() > 63 { return; }
    if kind == Denormal {
      var stop := f.DenormalOperand();
      if stop { return; }
    }
    var flags := RoundToInt(st0, kind, f.controlWord.rc);
    if flags != Exact {
      f.SetPrecisionFlag(flags == LostUp);
    }
    var tag := NormalizeInteger(st0, sign);
    f.CopyToReg(st0.Val(), tag, 0);
  }

  // ----- the value -----

  lemma IntRegMag(neg: bool, n: u64, unit: nat)
    requires unit == 16508
    ensures Mag(IntReg(neg, n)) == n * Pow2(unit) && IntReg(neg, n).Neg() == neg
    ensures StackTag(TagOf(IntReg(neg, n)))
  {
    hide Pow2, LeadingZeros;
    Words(IntReg(neg, n));
    if n == 0 {
      MulMono(0, 0, Pow2(unit));
      MulMono(0, 0, Pow2(63));
    } else {
      var k := LeadingZeros(n);
      MagValid(IntReg(neg, n));
      Pow2Add(k, unit - k);
      MulAssoc(n, Pow2(k), Pow2(unit - k));
    }
  }

  /** A number with an exponent above 63 is an integer. */
  lemma BigIsInteger(mode: Mode, r: Reg, unit: nat)
    requires TagOf(r) == Valid && r.Exponent() > 63 && unit == 16508
    ensures RoundMag(mode, r.Neg(), Mag(r), Pow2(unit)) * Pow2(unit) == Mag(r)
  {
    hide Pow2, RoundMag;
    MagValid(r);
    var k := r.Exponent() + 16445 - unit;
    Pow2Add(k, unit);
    MulAssoc(r.Sig(), Pow2(k), Pow2(unit));
    RoundMagExact(mode, r.Neg(), r.Sig() * Pow2(k), Pow2(unit));
  }

  /** frndint leaves the integer that its operand rounds to in the current mode, with
      the operand's sign and the right tag, and touches no other register. */
  lemma FrndintRounds(s: State)
    requires Inv(s) && IsNumber(s) && !StopsOnDenormal(s)
    ensures var s', one := FrndintSpec(s), Mag(CONST_1);
      && one > 0
      && Mag(s'.St(0)) == RoundMag(s.cw.rc, s.St(0).Neg(), Mag(s.St(0)), one) * one
      && s'.St(0).Neg() == s.St(0).Neg() && s'.Tagi(0) == TagOf(s'.St(0))
      && s'.top == s.top && s'.cw == s.cw
      && forall j: nat :: j < 8 && j != s.Phys(0) ==> Same(s, s', j)
  {
    hide Pow2, RoundMag, Mag, GetTag, IntReg, RoundedSig, RoundingStatus;
    TagTrue(s, 0);
    MagOne(16508);
    var r, s', kind := s.St(0), FrndintSpec(s), Kind(s.St(0), s.Tagi(0));
    if r.Exponent() > 63 {
      BigNumberIsValid(r, kind);
      BigIsInteger(s.cw.rc, r, 16508);
      AllSame(s);
    } else {
      IntRegMag(r.Neg(), RoundedSig(s.cw.rc, r, kind), 16508);
      if kind == Valid { ValidInteger(s.cw.rc, r, 16508); } else { DenormalInteger(s.cw.rc, r, 16508); }
      var s1 := s.(sw := RoundingStatus(s.cw, s.sw, r, kind));
      PutReads(s1, 0, RoundedSt0(s), TagOf(RoundedSt0(s)), 0);
      forall j: nat | j < 8 && j != s.Phys(0) ensures Same(s, s', j) {
        PutSame(s1, 0, RoundedSt0(s), TagOf(RoundedSt0(s)), j);
      }
    }
  }

  lemma BigNumberIsValid(r: Reg, kind: Tag)
    requires kind == Kind(r, TagOf(r)) && (kind == Valid || kind == Denormal) && r.Exponent() > 63
    ensures TagOf(r) == Valid
  {
  }

  lemma AllSame(s: State)
    ensures forall j: nat :: j < 8 ==> Same(s, s, j)
  {
  }

  // ----- C1 -----

  /** The instruction that shows it: after frndint of a number below 2^64, C1 says
      whether it was rounded up if and only if it was, or C1 was clear before, or an
      inexact result went through an exception that is not masked. */
  lemma FrndintC1Iff(s: State)
    requires Inv(s) && IsNumber(s) && !StopsOnDenormal(s) && s.St(0).Exponent() <= 63
    ensures var code := RoundingCode(s.cw.rc, s.St(0), Kind(s.St(0), s.Tagi(0)));
      FrndintSpec(s).sw.c1 == (code == LostUp) <==>
      code == LostUp || !s.sw.c1 || (code == LostDown && !s.cw.masks.precision)
  {
    hide RoundingCode, RoundedSig, IntReg, GetTag, SetTag, SomeUnmasked;
    var r, kind := s.St(0), Kind(s.St(0), s.Tagi(0));
    NumberFits(s.cw.rc, r, kind);
    var sw1 := if kind == Denormal then DenormalOperand(s.cw, s.sw) else s.sw;
    PrecisionC1Iff(s.cw, sw1, RoundingCode(s.cw.rc, r, kind) == LostUp);
  }

  lemma NumberFits(mode: Mode, r: Reg, kind: Tag)
    requires r.Exponent() <= 63
    ensures RoundingCode(mode, r, kind) != TooBig
  {
  }

  /** Registers full, 1.25 in st(0), and C1 left over from before. */
  function Stale(): State {
    State(CW_INIT, CLEAR.(c1 := true), 0, 0,
          [Reg(0, 0xa000_0000, 0x3fff), CONST_1, CONST_1, CONST_1, CONST_1, CONST_1, CONST_1, CONST_1])
  }

  lemma StaleState()
    ensures Inv(Stale()) && Stale().Tagi(0) == Valid && Stale().St(0) == Reg(0, 0xa000_0000, 0x3fff)
    ensures Stale().cw == CW_INIT && Stale().sw.c1
  {
    hide GetTag;
    ZeroTags();
  }

  /** frndint rounds it down and leaves C1 set. */
  lemma FrndintLeavesC1()
    ensures IsNumber(Stale()) && RoundingCode(RND, Stale().St(0), Valid) == LostDown && FrndintSpec(Stale()).sw.c1
  {
    hide GetTag, FrndintSpec, RoundingCode, Inv, Stale;
    StaleState();
    QuarterLost();
    FrndintC1Iff(Stale());
  }

  lemma ZeroTags()
    ensures forall i: nat :: i < 8 ==> GetTag(0, i) == Valid
  {
  }

  lemma QuarterLost()
    ensures var r := Reg(0, 0xa000_0000, 0x3fff); TagOf(r) == Valid && RoundingCode(RND, r, Valid) == LostDown
  {
    hide Pow2;
    Pow2Values();
    var s := 0xa000_0000_0000_0000;
    assert s / TWO63 == 1 && s % TWO63 == 0x2000_0000_0000_0000;
  }

  /** No store shows it, because they all clear C1 first: after fist and fistp C1 says
      exactly whether an integer that fits was rounded up. */
  lemma FistC1(s: State, half: nat)
    requires Inv(s)
    ensures var r, kind := s.St(0), Kind(s.St(0), s.Tagi(0));
      Conversion(s, Int(half)).1.c1 <==>
      && kind != Empty && kind != Infinity && kind != NaN && RoundingCode(s.cw.rc, r, kind) == LostUp
      && InRange(half, WithNeg(r.Neg(), RoundedSig(s.cw.rc, r, kind)))
  {
    hide RoundingCode, RoundedSig, GetTag, SomeUnmasked;
  }

  /** And so for fbstp. */
  lemma FbstpC1(s: State)
    requires Inv(s)
    ensures var r, kind := s.St(0), Kind(s.St(0), s.Tagi(0));
      Conversion(s, Decimal80).1.c1 <==>
      && kind != Empty && kind != Infinity && kind != NaN && RoundingCode(s.cw.rc, r, kind) == LostUp
      && RoundedSig(s.cw.rc, r, kind) <= LARGEST
  {
    hide RoundingCode, RoundedSig, GetTag, SomeUnmasked;
  }

  // ----- the invariant -----

  lemma QuietKeeps(cw: Control, sw: Status, r: Reg)
    requires SummaryTrue(cw, sw) && TagOf(r) == Special && SpecialKind(r) == NaN
    ensures SummaryTrue(cw, RealNaN(cw, sw, r).1) && TagOf(RealNaN(cw, sw, r).0) == Special
  {
    hide SomeUnmasked, Pending, Exception;
    ExceptionKeepsSummary(cw, sw, Invalid);
  }

  lemma FrndintNumberKeeps(s: State)
    requires Inv(s) && IsNumber(s)
    ensures Inv(FrndintNumber(s))
  {
    hide GetTag, SomeUnmasked, IntReg, RoundedSig, RoundingCode, TagsTrue;
    var r, kind := s.St(0), Kind(s.St(0), s.Tagi(0));
    RaisingKeepsSummary(s.cw, s.sw, true);
    var sw1 := if kind == Denormal then DenormalOperand(s.cw, s.sw) else s.sw;
    RaisingKeepsSummary(s.cw, sw1, RoundingCode(s.cw.rc, r, kind) == LostUp);
    PutKeeps(s.(sw := RoundingStatus(s.cw, s.sw, r, kind)), 0, RoundedSt0(s), TagOf(RoundedSt0(s)));
  }

  lemma FrndintKeeps(s: State)
    requires Inv(s)
    ensures Inv(FrndintSpec(s))
  {
    hide Inv, StackUnderflow, FrndintNumber, QuietSt0, GetTag, TagOf;
    UnderflowKeeps(s, 0);
    if IsNumber(s) { FrndintNumberKeeps(s); }
    if Kind(s.St(0), s.Tagi(0)) == NaN { QuietSt0Keeps(s); }
  }

  lemma QuietSt0Keeps(s: State)
    requires Inv(s) && Kind(s.St(0), s.Tagi(0)) == NaN
    ensures Inv(QuietSt0(s))
  {
    hide GetTag, RealNaN, SummaryTrue;
    TagTrue(s, 0);
    QuietKeeps(s.cw, s.sw, s.St(0));
    forall i: nat | i < 8 ensures GetTag(s.tw, i) == Empty || GetTag(s.tw, i) == TagOf(QuietSt0(s).st[i]) {
      assert GetTag(s.tw, i) == Empty || GetTag(s.tw, i) == TagOf(s.st[i]);
    }
  }
}
