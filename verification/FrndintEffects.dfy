/** The exceptions of frndint, and what it leaves of operands that it cannot round. */
module FrndintEffects {
  import opened Arith
  import opened Powers
  import opened Rounding
  import opened FpuRegs
  import opened FpuState
  import opened IntegerData
  import opened Compare
  import opened StackOps
  import opened StackRuns
  import opened StackMeaning
  import opened Frndint
  import opened Effects
  import opened CompareEffects
  import opened StoreEffects
  import opened FpremEffects

  /** A number that is no integer loses precision, a denormal is flagged as one, and no
      other exception is. */
  lemma FrndintFlags(s: State)
    requires Inv(s) && IsNumber(s) && !StopsOnDenormal(s)
    ensures var s', r := FrndintSpec(s), s.St(0);
      && s'.sw.stackFault == s.sw.stackFault && SameCodes(s.sw, s'.sw)
      && s'.sw.flags == s.sw.flags.(
        precision := s.sw.flags.precision || Nearby(s.cw.rc, r) * Mag(CONST_1) != Mag(r),
        denormOp := s.sw.flags.denormOp || IsDenormal(r))
  {
    hide Pow2, RoundMag, Mag, GetTag, SetTag, IntReg, RoundedSig, RoundingCode, TagOf, Numeric, DenormalOperand,
         SetPrecisionFlag, Nearby, RoundingStatus;
    var r := s.St(0);
    Kinds(s, 0);
    if r.Exponent() > 63 { BigNumber(s.cw.rc, r); } else { RoundingStatusSets(s.cw, s.sw, r); }
  }

  lemma RoundingStatusSets(cw: Control, sw: Status, r: Reg)
    requires Numeric(r) && r.Exponent() <= 63
    ensures var x := RoundingStatus(cw, sw, r, Kind(r, TagOf(r)));
      && x.stackFault == sw.stackFault && SameCodes(sw, x)
      && x.flags == sw.flags.(
        precision := sw.flags.precision || Nearby(cw.rc, r) * Mag(CONST_1) != Mag(r),
        denormOp := sw.flags.denormOp || IsDenormal(r))
  {
    hide Pow2, RoundMag, Mag, RoundingCode, TagOf, Numeric, DenormalOperand, SetPrecisionFlag, Nearby, Kind, SameCodes;
    var kind := Kind(r, TagOf(r));
    DenormalSets(cw, sw);
    LossSets(cw, if kind == Denormal then DenormalOperand(cw, sw) else sw, r);
    CodesChain(sw, DenormalOperand(cw, sw), RoundingStatus(cw, sw, r, kind));
  }

  lemma LossSets(cw: Control, sw: Status, r: Reg)
    requires Numeric(r) && r.Exponent() <= 63
    ensures var code := RoundingCode(cw.rc, r, Kind(r, TagOf(r)));
      var x := if code == Exact then sw else SetPrecisionFlag(cw, sw, code == LostUp);
      && x.stackFault == sw.stackFault && SameCodes(sw, x)
      && x.flags == sw.flags.(precision := sw.flags.precision || Nearby(cw.rc, r) * Mag(CONST_1) != Mag(r))
  {
    hide Pow2, RoundMag, Mag, RoundingCode, TagOf, Numeric, SetPrecisionFlag, Nearby, Kind;
    var kind := Kind(r, TagOf(r));
    IntegerLoss(cw.rc, r);
    NumberFits(cw.rc, r, kind);
    PrecisionFlagSets(cw, sw, RoundingCode(cw.rc, r, kind) == LostUp);
  }

  lemma CodesChain(x: Status, y: Status, z: Status)
    ensures SameCodes(x, y) && SameCodes(y, z) ==> SameCodes(x, z)
  {
  }

  lemma BigNumber(mode: Mode, r: Reg)
    requires Numeric(r) && r.Exponent() > 63
    ensures Nearby(mode, r) * Mag(CONST_1) == Mag(r) && !IsDenormal(r)
  {
    hide Pow2, RoundMag, Mag;
    MagOne(16508);
    BigIsInteger(mode, r, 16508);
  }

  /** A denormal operand stops it if that is not masked. */
  lemma FrndintStops(s: State)
    requires Inv(s) && IsNumber(s) && StopsOnDenormal(s)
    ensures var s' := FrndintSpec(s);
      && s'.cw == s.cw && SameStack(s, s') && s'.sw.stackFault == s.sw.stackFault
      && s'.sw.flags == s.sw.flags.(denormOp := true) && SameCodes(s.sw, s'.sw) && s'.sw.c1 == s.sw.c1
  {
    hide GetTag, SetTag, DenormalOperand;
    DenormalSets(s.cw, s.sw);
  }

  /** Zeros, infinities and quiet NaNs stay; a signalling NaN is made quiet and an
      unsupported format becomes the indefinite NaN, both as invalid operations, and only
      if that is masked. */
  lemma FrndintSpecials(s: State)
    requires Inv(s) && s.Tagi(0) != Empty && !Numeric(s.St(0))
    ensures var s', r := FrndintSpec(s), s.St(0);
      if !IsNaN(r) || QuietNaN(r) then s' == s
      else
        && s'.cw == s.cw && InvalidStatus(s.sw, s'.sw, false)
        && if !s.cw.masks.invalid then SameStack(s, s')
           else
             && Writes(s, s', 0, s'.St(0), Special)
             && if r.Field() == 0x7fff && r.Sig() >= TWO63 then
                  s'.St(0).exp == r.exp && s'.St(0).Sig() == r.Sig() + TWO63 / 2
                else s'.St(0) == INDEFINITE_NAN
  {
    hide GetTag, SetTag, Exception, InvalidStatus;
    Kinds(s, 0);
    var r := s.St(0);
    InvalidEffect(s.cw, s.sw);
    if IsNaN(r) {
      var (q, sw, _) := RealNaN(s.cw, s.sw, r);
      if QuietNaN(r) { Itself(s); }
      var s1 := s.(sw := sw);
      PutWrites(s1, 0, q, Special);
      TagTrue(s, 0);
      Replaced(s1, q);
      SameWrites(s, s1, s1.(st := s1.st[s.Phys(0) := q]), 0, q, Special);
    }
  }

  lemma Itself(s: State)
    ensures s.(st := s.st[s.Phys(0) := s.St(0)]) == s
  {
    assert s.st[s.Phys(0) := s.St(0)] == s.st;
  }

  /** Writing the contents alone, where the tag is already right. */
  lemma Replaced(s: State, r: Reg)
    requires s.Tagi(0) == Special
    ensures Writes(s, s.(st := s.st[s.Phys(0) := r]), 0, r, Special)
  {
    hide GetTag;
    forall j: int | 0 <= j < 8 ensures s.(st := s.st[s.Phys(0) := r]).St(j) == if j == 0 then r else s.St(j) {
      PhysApart(s, 0, j);
    }
  }

  lemma FrndintFaults(s: State)
    requires Inv(s) && s.Tagi(0) == Empty
    ensures var s' := FrndintSpec(s);
      && StackFault(s, s', false)
      && if s.cw.masks.invalid then Writes(s, s', 0, INDEFINITE_NAN, Special) else SameStack(s, s')
  {
    hide GetTag, SetTag, StackUnderflow, Writes, StackFault;
    UnderflowEffect(s, 0);
  }
}
