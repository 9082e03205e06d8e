/** What a store instruction leaves on the stack and in memory: when it pops, what it
    writes for operands that are no numbers, and the flags of the integer stores. */
module StoreEffects {
  import opened Arith
  import opened Powers
  import opened Rounding
  import opened FpuRegs
  import opened FpuState
  import opened StoreReal
  import opened StoreRealCorrect
  import opened LoadReal
  import opened IntegerData
  import opened PackedDecimal
  import opened Compare
  import opened StackOps
  import opened StackRuns
  import opened StackMeaning
  import opened StoreStatus
  import opened Effects
  import opened CompareEffects
  import opened LoadEffects

  // ----- the stack -----

  /** A store pops exactly when it is to and memory was written; otherwise the stack
      stays as it is. */
  lemma StorePopsIfStored(s: State, f: Format, pop: bool)
    requires Inv(s) && Encodable(STORE(f, pop))
    ensures var s' := Step(s, STORE(f, pop));
      && s'.cw == s.cw
      && if pop && Out(s, STORE(f, pop)) != NotStored then Pops(s, s', 1) else SameStack(s, s')
  {
    hide Conversion, GetTag, SetTag;
    var s1 := s.(sw := Conversion(s, f).1);
    assert SameStack(s, s1);
    PopPops(s1);
    StillPops(s, s1, s1.Pop(), 1);
  }

  // ----- exceptions of the special operands -----

  /** The invalid operation, and for an empty register a stack underflow. */
  predicate InvalidStatus(sw: Status, sw': Status, empty: bool) {
    && SameCodes(sw, sw') && sw'.flags == sw.flags.(invalid := true)
    && sw'.stackFault == (sw.stackFault || empty) && sw'.c1 == (sw.c1 && !empty)
  }

  lemma InvalidEffect(cw: Control, sw: Status)
    ensures InvalidStatus(sw, Exception(cw, sw, Invalid), false)
    ensures InvalidStatus(sw, Exception(cw, sw, StackUnder), true)
  {
    hide Exception;
    ExceptionSets(cw, sw, Invalid);
    ExceptionSets(cw, sw, StackUnder);
    assert Also(sw.flags, Invalid) == sw.flags.(invalid := true);
    assert Also(sw.flags, StackUnder) == sw.flags.(invalid := true);
  }

  // ----- doubles -----

  predicate DoubleIs(d: Double, neg: bool, e: nat, m: nat) {
    DoubleExp(d) == e && DoubleFrac(d) == m && (d.hi >= BIT31) == neg
  }

  /** Of a NaN the leading 52 bits after the first are kept and the first of those is
      set; unsupported formats and empty registers become the indefinite NaN; zeros and
      infinities keep their sign. Nothing is written when the exception is not masked. */
  lemma SpecialDouble(cw: Control, sw: Status, r: Reg, tag: Tag)
    requires !Numeric(r) && (tag == Empty || tag == TagOf(r))
    ensures var x, kind := StoreDoubleSpec(cw, sw, r, tag), Kind(r, tag);
      if kind == Zero || kind == Infinity then
        x.sw == sw && x.image.Some? && DoubleIs(x.image.value, r.Neg(), if kind == Zero then 0 else 0x7ff, 0)
      else if kind == NaN && QuietNaN(r) then
        x.sw == sw && x.image.Some? && DoubleIs(x.image.value, r.Neg(), 0x7ff, r.Sig() % TWO63 / 0x800)
      else
        && InvalidStatus(sw, x.sw, kind == Empty) && x.image.Some? == cw.masks.invalid
        && (x.image.Some? ==>
          if kind == NaN && r.Field() == 0x7fff && r.Sig() >= TWO63 then
            DoubleIs(x.image.value, r.Neg(), 0x7ff, r.Sig() % TWO63 / 0x800 + TWO52 / 2)
          else DoubleIs(x.image.value, true, 0x7ff, TWO52 / 2))
  {
    hide Exception, InvalidStatus, DoubleFrac, DoubleExp, NumericDouble, WithSign;
    InvalidEffect(cw, sw);
    DoubleFieldsOf(r.Neg(), 0, 0);
    DoubleFieldsOf(r.Neg(), 0, 0x7ff);
    IndefiniteDouble();
    if Kind(r, tag) == NaN && r.Exponent() == EXP_OVER && r.sigh >= BIT31 { NaNDoubleFields(r); }
  }

  lemma DoubleFieldsOf(neg: bool, m: nat, e: nat)
    requires m < TWO52 && e < 0x800
    ensures DoubleIs(Double(m % TWO32, WithSign(neg, m / TWO32 + e * 0x10_0000)), neg, e, m)
  {
    DoubleFields(neg, m, e);
  }

  lemma IndefiniteDouble()
    ensures DoubleIs(Double(0, 0xfff8_0000), true, 0x7ff, TWO52 / 2)
  {
  }

  /** The words that NaNDouble makes of the significand. */
  lemma NaNDoubleFields(r: Reg)
    requires r.sigh >= BIT31
    ensures var m, hi, lo := r.Sig() % TWO63 / 0x800, r.sigh / 0x800 % 0x10_0000,
                             r.sigl / 0x800 + r.sigh % 0x800 * 0x20_0000;
      && 0 <= m < TWO52
      && DoubleIs(Double(lo, WithSign(r.Neg(), hi + 0x7ff0_0000)), r.Neg(), 0x7ff, m)
      && (r.sigh % BIT31 < 0x4000_0000 ==>
        hi < 0x8_0000 && DoubleIs(Double(lo, WithSign(r.Neg(), hi + 0x7ff8_0000)), r.Neg(), 0x7ff, m + TWO52 / 2))
  {
    hide DoubleIs, WithSign;
    var m := r.Sig() % TWO63 / 0x800;
    FractionSplit(r);
    DoubleFieldsOf(r.Neg(), m, 0x7ff);
    if r.sigh % BIT31 < 0x4000_0000 {
      QuietBit(r.sigh);
      DoubleFieldsOf(r.Neg(), m + TWO52 / 2, 0x7ff);
      DivModUnique(m + TWO52 / 2, m / TWO32 + 0x8_0000, m % TWO32, TWO32);
    }
  }

  lemma FractionSplit(r: Reg)
    requires r.sigh >= BIT31
    ensures var m := r.Sig() % TWO63 / 0x800;
      && 0 <= m < TWO52
      && m / TWO32 == r.sigh / 0x800 % 0x10_0000 && m % TWO32 == r.sigl / 0x800 + r.sigh % 0x800 * 0x20_0000
  {
    var t := r.sigh - BIT31;
    QuietBit(r.sigh);
    ModSmall(t, BIT31);
    ModEqual(r.sigh, t, 1, BIT31);
    ModEqual(r.sigh, t, 0x10_0000, 0x800);
    DivModUnique(r.Sig(), 1, t * TWO32 + r.sigl, TWO63);
    var lo := r.sigl / 0x800 + t % 0x800 * 0x20_0000;
    DivModUnique(t * TWO32 + r.sigl, t / 0x800 * TWO32 + lo, r.sigl % 0x800, 0x800);
    DivModUnique(t / 0x800 * TWO32 + lo, t / 0x800, lo, TWO32);
  }

  // ----- singles -----

  predicate SingleIs(w: u32, neg: bool, e: nat, m: nat) {
    SingleExp(w) == e && SingleFrac(w) == m && (w >= BIT31) == neg
  }

  /** The same for singles, with the leading 23 bits. */
  lemma SpecialSingle(cw: Control, sw: Status, r: Reg, tag: Tag)
    requires !Numeric(r) && (tag == Empty || tag == TagOf(r))
    ensures var x, kind := StoreSingleSpec(cw, sw, r, tag), Kind(r, tag);
      if kind == Zero || kind == Infinity then
        x.sw == sw && x.image.Some? && SingleIs(x.image.value, r.Neg(), if kind == Zero then 0 else 0xff, 0)
      else if kind == NaN && QuietNaN(r) then
        x.sw == sw && x.image.Some? && SingleIs(x.image.value, r.Neg(), 0xff, r.Sig() % TWO63 / 0x100_0000_0000)
      else
        && InvalidStatus(sw, x.sw, kind == Empty) && x.image.Some? == cw.masks.invalid
        && (x.image.Some? ==>
          if kind == NaN && r.Field() == 0x7fff && r.Sig() >= TWO63 then
            SingleIs(x.image.value, r.Neg(), 0xff, r.Sig() % TWO63 / 0x100_0000_0000 + TWO23 / 2)
          else SingleIs(x.image.value, true, 0xff, TWO23 / 2))
  {
    hide Exception, InvalidStatus, SingleFrac, SingleExp, NumericSingle, WithSign;
    InvalidEffect(cw, sw);
    SingleFieldsOf(r.Neg(), 0, 0);
    SingleFieldsOf(r.Neg(), 0, 0xff);
    IndefiniteSingle();
    if Kind(r, tag) == NaN && r.Exponent() == EXP_OVER && r.sigh >= BIT31 { NaNSingleFields(r); }
  }

  lemma SingleFieldsOf(neg: bool, m: nat, e: nat)
    requires m < TWO23 && e < 0x100
    ensures SingleIs(WithSign(neg, m + e * TWO23), neg, e, m)
  {
    SingleFields(neg, m, e);
  }

  lemma IndefiniteSingle()
    ensures SingleIs(0xffc0_0000, true, 0xff, TWO23 / 2)
  {
  }

  lemma NaNSingleFields(r: Reg)
    requires r.sigh >= BIT31
    ensures var m := r.Sig() % TWO63 / 0x100_0000_0000;
      && m == r.sigh % BIT31 / 0x100 < TWO23
      && SingleIs(WithSign(r.Neg(), m + 0x7f80_0000), r.Neg(), 0xff, m)
      && (r.sigh % BIT31 < 0x4000_0000 ==>
        m < TWO23 / 2 && SingleIs(WithSign(r.Neg(), m + 0x7fc0_0000), r.Neg(), 0xff, m + TWO23 / 2))
  {
    hide SingleIs, WithSign;
    var t := r.sigh - BIT31;
    ModSmall(t, BIT31);
    ModEqual(r.sigh, t, 1, BIT31);
    DivModUnique(r.Sig(), 1, t * TWO32 + r.sigl, TWO63);
    DivModUnique(t * TWO32 + r.sigl, t / 0x100, t % 0x100 * TWO32 + r.sigl, 0x100_0000_0000);
    SingleFieldsOf(r.Neg(), t / 0x100, 0xff);
    if t < 0x4000_0000 { SingleFieldsOf(r.Neg(), t / 0x100 + TWO23 / 2, 0xff); }
  }

  // ----- integers -----

  /** The integer that a number rounds to, in units of 1.0. */
  function Nearby(mode: Mode, r: Reg): nat {
    OneIsPositive();
    RoundMag(mode, r.Neg(), Mag(r), Mag(CONST_1))
  }

  lemma OneIsPositive()
    ensures Mag(CONST_1) > 0
  {
    hide Pow2;
    MagOne(16508);
  }

  /** FPU_round_to_int in values: the integer, and a code that is true of it. */
  lemma IntegerLoss(mode: Mode, r: Reg)
    requires Numeric(r)
    ensures var n, one, kind := Nearby(mode, r), Mag(CONST_1), Kind(r, TagOf(r));
      var code := RoundingCode(mode, r, kind);
      if code == TooBig then n >= TWO64 && RoundedSig(mode, r, kind) == TWO64 - 1
      else
        && RoundedSig(mode, r, kind) == n
        && (code == Exact <==> n * one == Mag(r)) && (code == LostUp <==> n * one > Mag(r))
  {
    hide Pow2, RoundMag, Mag;
    var unit := 16508;
    MagOne(unit);
    if TagOf(r) != Valid {
      DenormalLoss(unit, mode, r);
    } else if r.Exponent() <= 63 {
      TinyLoss(unit, mode, r, r);
    } else {
      TooBigForInt(mode, r, unit);
    }
  }

  /** The status of an integer store: invalid when the rounded number does not fit, else
      the precision exception exactly when it is not the number itself, and then C1, clear
      before, says whether it lies above it. */
  ghost predicate IntegerStatus(cw: Control, sw: Status, r: Reg, sw': Status, fits: bool) {
    var above := Nearby(cw.rc, r) * Mag(CONST_1);
    if !fits then InvalidStatus(sw, sw', false)
    else if above == Mag(r) then sw' == sw
    else
      && SameCodes(sw, sw') && sw'.stackFault == sw.stackFault && sw'.flags == sw.flags.(precision := true)
      && (!sw.c1 ==> sw'.c1 == (above > Mag(r)))
  }

  lemma LostPrecision(cw: Control, sw: Status, r: Reg)
    requires Numeric(r) && RoundingCode(cw.rc, r, Kind(r, TagOf(r))) != TooBig
    ensures var code := RoundingCode(cw.rc, r, Kind(r, TagOf(r)));
      IntegerStatus(cw, sw, r, if code == Exact then sw else SetPrecisionFlag(cw, sw, code == LostUp), true)
  {
    hide Mag, RoundMag, SetPrecisionFlag, RoundingCode, Nearby, Numeric, Kind;
    var up := RoundingCode(cw.rc, r, Kind(r, TagOf(r))) == LostUp;
    IntegerLoss(cw.rc, r);
    PrecisionFlagSets(cw, sw, up);
    PrecisionC1Iff(cw, sw, up);
  }

  /** fist and fistp of a number, in every width. */
  lemma IntegerStored(half: nat, cw: Control, sw: Status, r: Reg)
    requires 1 <= half <= TWO63 && Numeric(r)
    ensures var x, v := StoreIntSpec(half, cw, sw, r, TagOf(r)), WithNeg(r.Neg(), Nearby(cw.rc, r));
      && IntegerStatus(cw, sw, r, x.sw, InRange(half, v))
      && (InRange(half, v) ==> x.image == Some(v))
      && (!InRange(half, v) ==> x.image == if cw.masks.invalid then Some(0 - half) else None)
  {
    hide Mag, RoundMag, SetPrecisionFlag, RoundingCode, RoundedSig, Nearby, IntegerStatus, Exception, InvalidStatus;
    IntegerLoss(cw.rc, r);
    InvalidEffect(cw, sw);
    NotFitting(cw, sw, r);
    if RoundingCode(cw.rc, r, Kind(r, TagOf(r))) != TooBig { LostPrecision(cw, sw, r); }
  }

  lemma NotFitting(cw: Control, sw: Status, r: Reg)
    requires InvalidStatus(sw, Exception(cw, sw, Invalid), false)
    ensures IntegerStatus(cw, sw, r, Exception(cw, sw, Invalid), false)
  {
    hide Mag, Nearby, Exception, InvalidStatus;
  }

  /** A zero is stored as 0; anything else that is no number is invalid. */
  lemma SpecialInteger(half: nat, cw: Control, sw: Status, r: Reg, tag: Tag)
    requires half >= 1 && !Numeric(r) && (tag == Empty || tag == TagOf(r))
    ensures var x, kind := StoreIntSpec(half, cw, sw, r, tag), Kind(r, tag);
      if kind == Zero then x == Stored(Some(0), sw)
      else
        && InvalidStatus(sw, x.sw, kind == Empty)
        && x.image == if cw.masks.invalid then Some(0 - half) else None
  {
    hide Exception, InvalidStatus;
    InvalidEffect(cw, sw);
  }

  // ----- packed decimals -----

  /** Nine bytes of decimal digits that denote n, and a sign byte. */
  ghost predicate DecimalIs(d: seq<u8>, neg: bool, n: nat) {
    |d| == 10 && Decimal(d[..9]) && Value(d[..9]) == n && d[9] == if neg then 0x80 else 0
  }

  lemma DigitsAre(neg: bool, n: nat)
    requires n <= LARGEST
    ensures DecimalIs(Digits(n, 9) + [if neg then 0x80 else 0], neg, n)
  {
    NineBytes();
    ValueOfDigits(n, 9);
    var d: seq<u8> := Digits(n, 9) + [if neg then 0x80 else 0];
    assert d[..9] == Digits(n, 9);
  }

  /** The indefinite of packed decimals. */
  predicate Indefinite18(d: seq<u8>) {
    |d| == 10 && d[9] == 0xff && d[8] == 0xff && d[7] == 0xc0 && forall j :: 0 <= j < 7 ==> d[j] == 0
  }

  /** fbstp of a number: the digits of the rounded integer if there are at most
      eighteen, else the indefinite. */
  lemma DecimalStored(cw: Control, sw: Status, r: Reg)
    requires Numeric(r)
    ensures var x, n := StoreBcdSpec(cw, sw, r, TagOf(r)), Nearby(cw.rc, r);
      && IntegerStatus(cw, sw, r, x.sw, n <= LARGEST)
      && (n <= LARGEST ==> x.image.Some? && DecimalIs(x.image.value, r.Neg(), n))
      && (n > LARGEST ==> x.image.Some? == cw.masks.invalid && (x.image.Some? ==> Indefinite18(x.image.value)))
  {
    hide Mag, RoundMag, SetPrecisionFlag, RoundingCode, RoundedSig, Nearby, IntegerStatus, Exception, InvalidStatus,
         DecimalIs;
    IntegerLoss(cw.rc, r);
    InvalidEffect(cw, sw);
    NotFitting(cw, sw, r);
    if RoundingCode(cw.rc, r, Kind(r, TagOf(r))) != TooBig { LostPrecision(cw, sw, r); }
    if Nearby(cw.rc, r) <= LARGEST { DigitsAre(r.Neg(), Nearby(cw.rc, r)); }
  }

  lemma SpecialDecimal(cw: Control, sw: Status, r: Reg, tag: Tag)
    requires !Numeric(r) && (tag == Empty || tag == TagOf(r))
    ensures var x, kind := StoreBcdSpec(cw, sw, r, tag), Kind(r, tag);
      if kind == Zero then x.sw == sw && x.image.Some? && DecimalIs(x.image.value, r.Neg(), 0)
      else
        && InvalidStatus(sw, x.sw, kind == Empty)
        && x.image.Some? == cw.masks.invalid && (x.image.Some? ==> Indefinite18(x.image.value))
  {
    hide Exception, InvalidStatus, DecimalIs;
    InvalidEffect(cw, sw);
    DigitsAre(r.Neg(), 0);
  }

  // ----- extended -----

  /** fstp m80real writes the ten bytes as they are and raises nothing; an empty register
      is a stack underflow. */
  lemma ExtendedStored(s: State)
    requires Inv(s)
    ensures var (out, sw) := Conversion(s, Extended80);
      if s.Tagi(0) != Empty then out == Ten(s.St(0)) && sw == s.sw.(c1 := false)
      else
        && InvalidStatus(s.sw.(c1 := false), sw, true)
        && out == if s.cw.masks.invalid then Ten(INDEFINITE_NAN) else NotStored
  {
    hide Exception, InvalidStatus, GetTag;
    InvalidEffect(s.cw, ClearC1(s.sw));
  }

  // ----- whole instructions on a number -----

  /** fst and fstp m64real: flags and C1 as in DoubleStatus, with C1 cleared before, and
      what is written is the number correctly rounded. */
  lemma FstDoubleEffect(s: State)
    requires Inv(s) && s.Tagi(0) != Empty && Numeric(s.St(0))
    ensures var r, (out, sw) := s.St(0), Conversion(s, Double64);
      && (out == NotStored || out.DoubleWords?)
      && if TooLarge(53, DOUBLE_KTOP, s.cw.rc, r) then
           TooLargeStatus(s.cw, s.sw.(c1 := false), sw, out.DoubleWords?)
         else
           && InRangeStatus(53, DOUBLE_KMIN, s.cw, s.sw.(c1 := false), r, sw,
                            if out.DoubleWords? then Some(DoubleMag(out.d)) else None)
           && (out.DoubleWords? ==>
             && (out.d.hi >= BIT31 <==> r.Neg()) && DoubleExp(out.d) < 0x7ff
             && CorrectlyRounded(53, DOUBLE_KMIN, s.cw.rc, r.Neg(), Mag(r), DoubleMag(out.d)))
  {
    hide Pow2, RoundMag, Mag, CorrectlyRounded, InRangeStatus, TooLargeStatus, DoubleMag, TooLarge, TagOf, GetTag,
         Numeric, StoreDoubleSpec, RoundedExponent;
    var r := s.St(0);
    TagTrue(s, 0);
    DoubleStatus(s.cw, ClearC1(s.sw), r);
    StoreDoubleCorrect(s.cw, ClearC1(s.sw), r);
    DoubleTooLarge(s.cw.rc, r);
  }

  lemma DoubleTooLarge(mode: Mode, r: Reg)
    requires Numeric(r)
    ensures DoubleOverflows(mode, r) <==> TooLarge(53, DOUBLE_KTOP, mode, r)
  {
    hide Pow2, RoundMag, Mag, TooLarge, RoundedExponent;
    DoubleTinyFor(r);
    if TagOf(r) == Valid {
      assert Pow2(52) == TWO52 && Pow2(11) == 0x800 by { Pow2Values(); }
      TooLargeIff(53, 0x800, TWO52, DOUBLE_KTOP, mode, r);
    }
  }

  /** fst and fstp m32real. */
  lemma FstSingleEffect(s: State)
    requires Inv(s) && s.Tagi(0) != Empty && Numeric(s.St(0))
    ensures var r, (out, sw) := s.St(0), Conversion(s, Single);
      && (out == NotStored || out.Word?)
      && if TooLarge(24, SINGLE_KTOP, s.cw.rc, r) then
           TooLargeStatus(s.cw, s.sw.(c1 := false), sw, out.Word?)
         else
           && InRangeStatus(24, SINGLE_KMIN, s.cw, s.sw.(c1 := false), r, sw,
                            if out.Word? then Some(SingleMag(out.w)) else None)
           && (out.Word? ==>
             && (out.w >= BIT31 <==> r.Neg()) && SingleExp(out.w) < 0xff
             && CorrectlyRounded(24, SINGLE_KMIN, s.cw.rc, r.Neg(), Mag(r), SingleMag(out.w)))
  {
    hide Pow2, RoundMag, Mag, CorrectlyRounded, InRangeStatus, TooLargeStatus, SingleMag, TooLarge, TagOf, GetTag,
         Numeric, StoreSingleSpec, RoundedExponent;
    var r := s.St(0);
    TagTrue(s, 0);
    SingleStatus(s.cw, ClearC1(s.sw), r);
    StoreSingleCorrect(s.cw, ClearC1(s.sw), r);
    SingleTooLarge(s.cw.rc, r);
  }

  lemma SingleTooLarge(mode: Mode, r: Reg)
    requires Numeric(r)
    ensures SingleOverflows(mode, r) <==> TooLarge(24, SINGLE_KTOP, mode, r)
  {
    hide Pow2, RoundMag, Mag, TooLarge, RoundedExponent;
    SingleTinyFor(r);
    if TagOf(r) == Valid {
      assert Pow2(23) == TWO23 && Pow2(40) == 0x100_0000_0000 by { Pow2Values(); }
      TooLargeIff(24, 0x100_0000_0000, TWO23, SINGLE_KTOP, mode, r);
    }
  }

  /** fist, fistp and fbstp: the rounded integer or its digits, and the flags. */
  lemma FistEffect(s: State, half: nat)
    requires Inv(s) && s.Tagi(0) != Empty && Numeric(s.St(0)) && 1 <= half <= TWO63
    ensures var r, (out, sw) := s.St(0), Conversion(s, Int(half));
      var v := WithNeg(r.Neg(), Nearby(s.cw.rc, r));
      && IntegerStatus(s.cw, s.sw.(c1 := false), r, sw, InRange(half, v))
      && out == if InRange(half, v) then Integer(v) else if s.cw.masks.invalid then Integer(0 - half) else NotStored
  {
    hide RoundMag, Mag, IntegerStatus, Nearby, TagOf, GetTag, Numeric, StoreIntSpec;
    TagTrue(s, 0);
    IntegerStored(half, s.cw, ClearC1(s.sw), s.St(0));
  }

  lemma FbstpEffect(s: State)
    requires Inv(s) && s.Tagi(0) != Empty && Numeric(s.St(0))
    ensures var r, (out, sw) := s.St(0), Conversion(s, Decimal80);
      var n := Nearby(s.cw.rc, r);
      && IntegerStatus(s.cw, s.sw.(c1 := false), r, sw, n <= LARGEST)
      && if n <= LARGEST then out.Packed? && DecimalIs(out.b, r.Neg(), n)
         else if s.cw.masks.invalid then out.Packed? && Indefinite18(out.b) else out == NotStored
  {
    hide RoundMag, Mag, IntegerStatus, Nearby, TagOf, GetTag, Numeric, StoreBcdSpec, DecimalIs, Indefinite18;
    TagTrue(s, 0);
    DecimalStored(s.cw, ClearC1(s.sw), s.St(0));
  }
}
