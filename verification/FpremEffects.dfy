/** fprem and fprem1 where there is no remainder to compute, and the exceptions that
    they raise where there is. */
module FpremEffects {
  import opened Arith
  import opened Powers
  import opened Rounding
  import opened FpuRegs
  import opened FpuState
  import opened Compare
  import opened StackOps
  import opened StackRuns
  import opened StackMeaning
  import opened Fprem
  import opened FpremExact
  import opened FpremFar
  import opened Effects
  import opened CompareEffects
  import opened StoreEffects

  predicate IsZero(r: Reg) { Kind(r, TagOf(r)) == Zero }

  predicate IsInfinite(r: Reg) { Kind(r, TagOf(r)) == Infinity }

  /** Every register holds a number, a zero, an infinity or a NaN. */
  lemma Kinds(s: State, i: int)
    requires Inv(s) && s.Tagi(i) != Empty
    ensures var r := s.St(i);
      && Kind(r, s.Tagi(i)) == Kind(r, TagOf(r))
      && (Numeric(r) <==> !IsNaN(r) && !IsZero(r) && !IsInfinite(r))
      && (IsDenormal(r) ==> Numeric(r))
  {
    hide GetTag;
    TagTrue(s, i);
  }

  /** Operands in use that are not NaNs, and not both of them numbers. */
  ghost predicate NoRemainder(s: State) {
    && s.Tagi(0) != Empty && s.Tagi(1) != Empty && !IsNaN(s.St(0)) && !IsNaN(s.St(1))
    && !(Numeric(s.St(0)) && Numeric(s.St(1)))
  }

  /** A zero divisor or an infinite dividend is an invalid operation: st(0) becomes the
      indefinite NaN if that is masked and stays what it is if not. */
  lemma FpremInvalid(s: State, nearest: bool)
    requires Inv(s) && NoRemainder(s) && (IsZero(s.St(1)) || IsInfinite(s.St(0)))
    ensures var s' := DoFpremSpec(s, nearest);
      && s'.cw == s.cw && InvalidStatus(s.sw, s'.sw, false)
      && if s.cw.masks.invalid then Writes(s, s', 0, INDEFINITE_NAN, Special) else SameStack(s, s')
  {
    hide Exception, InvalidStatus, GetTag, SetTag, TagOf, Numeric, Kind, Writes;
    Kinds(s, 0);
    Kinds(s, 1);
    InvalidEffect(s.cw, s.sw);
    var s1 := s.(sw := Exception(s.cw, s.sw, Invalid));
    PutWrites(s1, 0, INDEFINITE_NAN, Special);
    SameWrites(s, s1, s1.Put(0, INDEFINITE_NAN, Special), 0, INDEFINITE_NAN, Special);
  }

  lemma SameWrites(s: State, s1: State, s': State, i: int, r: Reg, t: Tag)
    requires Writes(s1, s', i, r, t) && SameStack(s, s1)
    ensures Writes(s, s', i, r, t)
  {
    hide GetTag;
    forall j: int ensures s.St(j) == s1.St(j) && s.Tagi(j) == s1.Tagi(j) {}
  }

  /** The remainder of a zero, or by an infinity, is the dividend itself: nothing
      changes but the codes, which are cleared, and the flag of a denormal operand. If
      that exception is not masked not even the codes change. */
  lemma FpremUnchanged(s: State, nearest: bool)
    requires Inv(s) && NoRemainder(s) && !IsZero(s.St(1)) && !IsInfinite(s.St(0))
    ensures (IsZero(s.St(0)) || IsInfinite(s.St(1)))
    ensures var s', denormal := DoFpremSpec(s, nearest), IsDenormal(s.St(0)) || IsDenormal(s.St(1));
      && s'.cw == s.cw && SameStack(s, s') && s'.sw.stackFault == s.sw.stackFault
      && s'.sw.flags == s.sw.flags.(denormOp := s.sw.flags.denormOp || denormal)
      && if denormal && !s.cw.masks.denormOp then SameCodes(s.sw, s'.sw) && s'.sw.c1 == s.sw.c1
         else !s'.sw.c0 && !s'.sw.c1 && !s'.sw.c2 && !s'.sw.c3
  {
    hide DenormalOperand, GetTag, SetTag, TagOf, Numeric, Kind;
    Kinds(s, 0);
    Kinds(s, 1);
    DenormalSets(s.cw, s.sw);
  }

  /** An empty operand is a stack underflow of st(0). */
  lemma FpremFaults(s: State, nearest: bool)
    requires Inv(s) && (s.Tagi(0) == Empty || s.Tagi(1) == Empty)
    ensures var s' := DoFpremSpec(s, nearest);
      && StackFault(s, s', false)
      && if s.cw.masks.invalid then Writes(s, s', 0, INDEFINITE_NAN, Special) else SameStack(s, s')
  {
    hide GetTag, SetTag, TagOf, Numeric, Kind, StackUnderflow, Writes, StackFault;
    UnderflowEffect(s, 0);
  }

  // ----- numbers -----

  /** With numbers a denormal operand stops the instruction if that is not masked. */
  lemma FpremStops(s: State, nearest: bool)
    requires Inv(s) && Numbers(s) && !s.cw.masks.denormOp
    requires IsDenormal(s.St(0)) || IsDenormal(s.St(1))
    ensures var s' := DoFpremSpec(s, nearest);
      && s'.cw == s.cw && SameStack(s, s') && s'.sw.stackFault == s.sw.stackFault
      && s'.sw.flags == s.sw.flags.(denormOp := true) && SameCodes(s.sw, s'.sw) && s'.sw.c1 == s.sw.c1
  {
    hide DenormalOperand, GetTag, SetTag, TagOf, Numeric, Kind, Difference16;
    Kinds(s, 0);
    Kinds(s, 1);
    DenormalSets(s.cw, s.sw);
  }

  /** Packing raises the underflow exactly where it scales. */
  lemma PackFlags(s: State, r: Reduced, e: int, m: nat)
    requires -1 <= r.e <= 0 && -16445 <= e + r.e && e < EXP_OVER && MagOf(r.t, e + r.e) == m
    ensures var s' := Pack(s, r, e);
      && s'.cw == s.cw && s'.sw.stackFault == s.sw.stackFault
      && s'.sw.flags == s.sw.flags.(
        underflow := s.sw.flags.underflow || (!s.cw.masks.underflow && TinyMagnitude(m)))
  {
    hide Pow2, LeadingZeros, MagOf, Mag, TagOf, Exception, MakeReg, ShiftRight, GetTag, SetTag;
    TinyIff(r.t, e + r.e);
    ExceptionSets(s.cw, QuotientBits(s.sw, r.q), Underflow);
    assert Also(s.sw.flags, Underflow) == s.sw.flags.(underflow := true);
  }

  /** The exceptions of a remainder t of two numbers: a denormal operand, and an
      underflow when t is tiny and that is not masked. */
  ghost predicate RemainderFlags(s: State, s': State, t: int) {
    && s'.cw == s.cw && s'.sw.stackFault == s.sw.stackFault
    && s'.sw.flags == s.sw.flags.(
      denormOp := s.sw.flags.denormOp || IsDenormal(s.St(0)) || IsDenormal(s.St(1)),
      underflow := s.sw.flags.underflow || Scales(s, t))
  }

  lemma FlagsOfRemainder(s: State, nearest: bool, t: nat)
    requires Inv(s) && GoesOn(s)
    requires Difference16(s.St(0), s.St(1)) >= -1 ==>
      var r, e := Remainder(s.St(0), s.St(1), nearest), ToExp16(s.St(1)).Exponent16();
      -16445 <= e + r.e && MagOf(r.t, e + r.e) == t
    ensures RemainderFlags(s, DoFpremSpec(s, nearest), t)
  {
    hide Pow2, LeadingZeros, MagOf, Mag, TagOf, DenormalOperand, GetTag, SetTag, Numeric, Kind, Difference16, Remainder,
         TinyMagnitude, Pack, ToExp16, DoFpremSpec;
    var s1 := AfterDenormal(s, AnyDenormal(s));
    Kinds(s, 0);
    Kinds(s, 1);
    DenormalSets(s.cw, s.sw);
    GoingOn(s, nearest);
    if Difference16(s.St(0), s.St(1)) >= -1 {
      NearState(s1, nearest);
      PackFlags(s1, Remainder(s.St(0), s.St(1), nearest), ToExp16(s.St(1)).Exponent16(), t);
    }
  }

  lemma FpremFlags(s: State)
    requires Inv(s) && GoesOn(s)
    ensures Mag(s.St(1)) > 0
    ensures RemainderFlags(s, DoFpremSpec(s, false), Mag(s.St(0)) % Mag(s.St(1)))
  {
    hide Pow2, MagOf, Mag, RemainderFlags, DoFpremSpec, Difference16, Remainder, ToExp16;
    NumericPositive(s.St(1));
    if Difference16(s.St(0), s.St(1)) >= -1 { RemainderExact(s.St(0), s.St(1)); }
    FlagsOfRemainder(s, false, Mag(s.St(0)) % Mag(s.St(1)));
  }

  lemma Fprem1Flags(s: State)
    requires Inv(s) && GoesOn(s) && !CarryLost(s.St(0), s.St(1))
    ensures Mag(s.St(1)) > 0
    ensures var x, y := Mag(s.St(0)), Mag(s.St(1));
      RemainderFlags(s, DoFpremSpec(s, true), Dist(x, RoundMag(RND, false, x, y) * y))
  {
    hide Pow2, MagOf, Mag, RemainderFlags, DoFpremSpec, Difference16, Remainder, ToExp16, RoundMag;
    NumericPositive(s.St(1));
    if Difference16(s.St(0), s.St(1)) >= -1 { NearestExactIff(s.St(0), s.St(1)); }
    FlagsOfRemainder(s, true, Dist(Mag(s.St(0)), RoundMag(RND, false, Mag(s.St(0)), Mag(s.St(1))) * Mag(s.St(1))));
  }

  lemma PartialFlags(s: State)
    requires Numbers(s) && Difference16(s.St(0), s.St(1)) >= 64
    ensures var s', m := PackPartial(s), PartialMag(s.St(0), s.St(1));
      && s'.cw == s.cw && s'.sw.stackFault == s.sw.stackFault
      && s'.sw.flags == s.sw.flags.(
        underflow := s.sw.flags.underflow || (!s.cw.masks.underflow && TinyMagnitude(m)))
  {
    hide Pow2, LeadingZeros, MagOf, Mag, TagOf, Exception, MakeReg, ShiftRight, GetTag, SetTag, PartialOf, Numeric,
         Difference16, TinyMagnitude, PartialExponent;
    var t, e := PartialOf(s.St(0), s.St(1)), PartialExponent(s.St(0), s.St(1));
    TinyIff(t, e);
    ExceptionSets(s.cw, Unfinished(s.sw), Underflow);
    assert Also(s.sw.flags, Underflow) == s.sw.flags.(underflow := true);
  }

  /** The exceptions of one step of a longer reduction. */
  lemma StepFlags(s: State, nearest: bool)
    requires Inv(s) && GoesFar(s)
    ensures var s', m := DoFpremSpec(s, nearest), PartialMag(s.St(0), s.St(1));
      && s'.cw == s.cw && s'.sw.stackFault == s.sw.stackFault
      && s'.sw.flags == s.sw.flags.(
        denormOp := s.sw.flags.denormOp || IsDenormal(s.St(0)) || IsDenormal(s.St(1)),
        underflow := s.sw.flags.underflow || (!s.cw.masks.underflow && TinyMagnitude(m)))
  {
    hide Pow2, Mag, TagOf, DenormalOperand, GetTag, SetTag, Numeric, Kind, Difference16, TinyMagnitude, PackPartial,
         DoFpremSpec, PartialMag;
    Kinds(s, 0);
    Kinds(s, 1);
    DenormalSets(s.cw, s.sw);
    GoingFar(s, nearest);
    PartialFlags(AfterDenormal(s, AnyDenormal(s)));
  }

  // ----- NaNs -----

  /** An infinite exponent, and not the unsupported formats that also count as NaNs. */
  predicate ProperNaN(r: Reg) { r.Field() == 0x7fff && r.Sig() > TWO63 }

  /** r is q with the quiet bit set. */
  predicate Quietened(r: Reg, q: Reg) {
    r.exp == q.exp && r.Sig() == if q.Sig() % TWO63 >= TWO63 / 2 then q.Sig() else q.Sig() + TWO63 / 2
  }

  lemma NaNFields(r: Reg)
    requires IsNaN(r)
    ensures Unsupported(r) <==> !ProperNaN(r)
    ensures ProperNaN(r) ==> (QuietBitSet(r) <==> QuietNaN(r)) && Quietened(WithQuietBit(r), r)
    ensures ProperNaN(r) && QuietNaN(r) ==> Quietened(r, r)
    ensures QuietNaN(r) ==> ProperNaN(r)
  {
    KindMeans(r);
    SecondBit(r);
  }

  lemma SecondBit(r: Reg)
    ensures r.Sig() >= TWO63 <==> r.sigh >= BIT31
    ensures r.sigh >= BIT31 ==> (r.sigh / 0x4000_0000 % 2 == 1 <==> r.Sig() >= TWO63 + TWO63 / 2)
    ensures r.sigh >= BIT31 ==> (r.sigh / 0x4000_0000 % 2 == 1 <==> r.Sig() % TWO63 >= TWO63 / 2)
  {
  }

  /** With a NaN among the operands st(0) becomes that NaN, or of two the one with the
      larger significand, made quiet. If one of them was not quiet this is an invalid
      operation and happens only if that is masked; with an unsupported format the
      masked response is the indefinite NaN. */
  lemma FpremNaN(s: State, nearest: bool)
    requires Inv(s) && s.Tagi(0) != Empty && s.Tagi(1) != Empty && (IsNaN(s.St(0)) || IsNaN(s.St(1)))
    ensures var s', x, y := DoFpremSpec(s, nearest), s.St(0), s.St(1);
      var signals := (IsNaN(x) && !QuietNaN(x)) || (IsNaN(y) && !QuietNaN(y));
      && s'.cw == s.cw
      && (if signals then InvalidStatus(s.sw, s'.sw, false) else s'.sw == s.sw)
      && (signals && !s.cw.masks.invalid ==> SameStack(s, s'))
      && (!signals || s.cw.masks.invalid ==>
        && Writes(s, s', 0, s'.St(0), Special)
        && if (IsNaN(x) && !ProperNaN(x)) || (IsNaN(y) && !ProperNaN(y)) then s'.St(0) == INDEFINITE_NAN
           else Quietened(s'.St(0), if IsNaN(x) && (!IsNaN(y) || x.Sig() > y.Sig()) then x else y))
  {
    hide Exception, InvalidStatus, GetTag, SetTag, Kind, TagOf, Writes, ProperNaN, QuietNaN, Unsupported, QuietBitSet,
         WithQuietBit, Quietened, TwoOpNaN;
    Kinds(s, 0);
    Kinds(s, 1);
    if IsNaN(s.St(0)) { NaNFields(s.St(0)); }
    if IsNaN(s.St(1)) { NaNFields(s.St(1)); }
    TwoOpNaNWrites(s);
  }

  lemma TwoOpNaNWrites(s: State)
    ensures var s', a, b := TwoOpNaN(s), s.St(0), s.St(1);
      var quiet := !AnyUnsupported(a, b) && !AnySignalling(a, b);
      && s'.cw == s.cw
      && (if quiet then s'.sw == s.sw else InvalidStatus(s.sw, s'.sw, false))
      && if !quiet && !s.cw.masks.invalid then SameStack(s, s')
         else
           && Writes(s, s', 0, s'.St(0), Special)
           && s'.St(0) == if AnyUnsupported(a, b) then INDEFINITE_NAN
                          else if AnySignalling(a, b) then WithQuietBit(Survivor(a, b)) else Survivor(a, b)
  {
    hide Exception, InvalidStatus, GetTag, SetTag, AnyUnsupported, AnySignalling, WithQuietBit, Survivor, Writes;
    var a, b := s.St(0), s.St(1);
    InvalidEffect(s.cw, s.sw);
    var r := if AnyUnsupported(a, b) then INDEFINITE_NAN
             else if AnySignalling(a, b) then WithQuietBit(Survivor(a, b)) else Survivor(a, b);
    PutWrites(s, 0, r, Special);
    PutBack(s, r, Special);
    StillWrites(s, s.Put(0, r, Special), s.Put(0, r, Special).Raise(Invalid), 0, r, Special);
  }
}
