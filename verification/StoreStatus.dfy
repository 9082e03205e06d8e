/** Which exceptions the store of a real number raises and when it writes nothing, from
    the register's value alone, for singles and doubles. */
module StoreStatus {
  import opened Arith
  import opened Powers
  import opened Rounding
  import opened FpuRegs
  import opened FpuState
  import opened StoreReal
  import opened StoreRealCorrect
  import opened Compare
  import opened Effects

  // ----- conditions on values -----

  /** The register's value is not a number of the format. */
  ghost predicate Inexact(p: nat, kmin: nat, r: Reg) { !Representable(p, kmin, Mag(r)) }

  /** It is below the smallest normal number of the format. */
  predicate TinyFor(p: nat, kmin: nat, r: Reg)
    requires p >= 1
  {
    Mag(r) < Pow2(p - 1 + kmin)
  }

  /** Rounded to the spacing 2^ktop of the largest numbers it is above all of them. */
  predicate TooLarge(p: nat, ktop: nat, mode: Mode, r: Reg) {
    RoundMag(mode, r.Neg(), Mag(r), Pow2(ktop)) >= Pow2(p)
  }

  /** The number of smallest denormals that a tiny number rounds to. */
  function Denormals(kmin: nat, mode: Mode, r: Reg): nat { RoundMag(mode, r.Neg(), Mag(r), Pow2(kmin)) }

  /** What the 80486 does not report as an underflow: a number that rounds to the
      smallest normal one, and has more than p significant bits. */
  predicate Peculiar(p: nat, kmin: nat, mode: Mode, r: Reg)
    requires 1 <= p <= 64
  {
    Denormals(kmin, mode, r) == Pow2(p - 1) && r.Sig() % Pow2(64 - p) != 0
  }

  ghost predicate Underflows(p: nat, kmin: nat, mode: Mode, r: Reg)
    requires 1 <= p <= 64
  {
    Inexact(p, kmin, r) && TinyFor(p, kmin, r) && !Peculiar(p, kmin, mode, r)
  }

  /** The other half of the status word stays. */
  predicate OtherFlags(sw: Status, sw': Status) {
    && SameCodes(sw, sw') && sw'.stackFault == sw.stackFault
    && sw'.flags.invalid == sw.flags.invalid && sw'.flags.denormOp == sw.flags.denormOp
    && sw'.flags.zeroDiv == sw.flags.zeroDiv
  }

  /** The status of a number that is not too large; y is the magnitude written. */
  ghost predicate InRangeStatus(p: nat, kmin: nat, cw: Control, sw: Status, r: Reg, sw': Status, y: Option<nat>)
    requires 1 <= p <= 64
  {
    var under, up := Underflows(p, kmin, cw.rc, r), Denormals(kmin, cw.rc, r) * Pow2(kmin) > Mag(r);
    var stopped := under && !cw.masks.underflow;
    && OtherFlags(sw, sw') && sw'.flags.overflow == sw.flags.overflow
    && sw'.flags.underflow == (sw.flags.underflow || under)
    && sw'.flags.precision == (sw.flags.precision || (Inexact(p, kmin, r) && !stopped))
    && (!Inexact(p, kmin, r) ==> sw' == sw && y == Some(Mag(r)))
    && (y.None? <==> stopped || (Inexact(p, kmin, r) && TinyFor(p, kmin, r) && !cw.masks.precision))
    && (Inexact(p, kmin, r) && y.Some? ==> y.value != Mag(r) && sw'.c1 == (y.value > Mag(r)))
    && (Inexact(p, kmin, r) && y.None? && !stopped ==> sw'.c1 == up)
  }

  /** The status of one that is. */
  predicate TooLargeStatus(cw: Control, sw: Status, sw': Status, written: bool) {
    && OtherFlags(sw, sw') && sw'.flags.overflow && sw'.flags.underflow == sw.flags.underflow
    && sw'.flags.precision == (sw.flags.precision || cw.masks.overflow)
    && (cw.masks.overflow ==> sw'.c1)
    && written == (cw.masks.overflow && cw.masks.precision)
  }

  // ----- the status functions -----

  lemma TinyStatusEffect(cw: Control, sw: Status, loss: Loss, quiet: bool)
    requires loss != TooBig
    ensures var (ok, x) := TinyStatus(cw, sw, loss, quiet);
      if loss == Exact then ok && x == sw
      else
        var stopped := !quiet && !cw.masks.underflow;
        && OtherFlags(sw, x) && x.flags.overflow == sw.flags.overflow
        && x.flags.underflow == (sw.flags.underflow || !quiet)
        && x.flags.precision == (sw.flags.precision || !stopped)
        && ok == (!stopped && cw.masks.precision)
        && (!stopped ==> x.c1 == (loss == LostUp))
  {
    hide Exception, LossException, OtherFlags;
    if loss == Exact { return; }
    if quiet { LossEffect(cw, sw, loss); } else { LoudEffect(cw, sw, loss); }
  }

  lemma LoudEffect(cw: Control, sw: Status, loss: Loss)
    requires loss == LostUp || loss == LostDown
    ensures var sw1 := Exception(cw, sw, Underflow);
      var x := LossException(cw, sw1, loss);
      && OtherFlags(sw, sw1) && sw1.flags == sw.flags.(underflow := true)
      && OtherFlags(sw, x) && x.flags == sw.flags.(underflow := true, precision := true) && x.c1 == (loss == LostUp)
  {
    hide Exception, LossException;
    ExceptionSets(cw, sw, Underflow);
    assert Also(sw.flags, Underflow) == sw.flags.(underflow := true);
    LossEffect(cw, Exception(cw, sw, Underflow), loss);
  }

  lemma LossEffect(cw: Control, sw: Status, loss: Loss)
    requires loss == LostUp || loss == LostDown
    ensures var x := LossException(cw, sw, loss);
      OtherFlags(sw, x) && x.flags == sw.flags.(precision := true) && x.c1 == (loss == LostUp)
  {
    hide Exception;
    ExceptionSets(cw, sw, Precision(loss == LostUp));
    assert Also(sw.flags, Precision(loss == LostUp)) == sw.flags.(precision := true);
  }

  lemma OverflowStatusEffect(cw: Control, sw: Status)
    ensures TooLargeStatus(cw, sw, OverflowStatus(cw, sw).1, OverflowStatus(cw, sw).0)
  {
    hide Exception, SetPrecisionUpDown;
    ExceptionSets(cw, sw, Overflow);
    PrecisionSets(cw, Exception(cw, sw, Overflow), true);
  }

  lemma InexactStatusEffect(cw: Control, sw: Status, r: Reg, q: nat)
    requires q > 0
    ensures var x, n := InexactStatus(cw, sw, r, q), RoundMag(cw.rc, r.Neg(), r.Sig(), q);
      && OtherFlags(sw, x) && x.flags.overflow == sw.flags.overflow && x.flags.underflow == sw.flags.underflow
      && x.flags.precision == (sw.flags.precision || n * q != r.Sig())
      && (n * q == r.Sig() ==> x == sw) && (n * q != r.Sig() ==> x.c1 == (n * q > r.Sig()))
  {
    hide SetPrecisionUpDown, RoundMag;
    var n := RoundMag(cw.rc, r.Neg(), r.Sig(), q);
    RoundMagSide(cw.rc, r.Neg(), r.Sig(), q);
    RoundMagNear(cw.rc, r.Neg(), r.Sig(), q);
    PrecisionSets(cw, sw, n > r.Sig() / q);
  }

  // ----- values -----

  /** A correctly rounded number is the number itself exactly when the format has it. */
  lemma RoundedIsSame(p: nat, kmin: nat, mode: Mode, neg: bool, x: nat, y: nat)
    requires p >= 1 && CorrectlyRounded(p, kmin, mode, neg, x, y)
    ensures Representable(p, kmin, x) <==> y == x
  {
  }

  lemma Unscaled(n: nat, m: nat, k: nat)
    requires k > 0
    ensures n * k == m * k <==> n == m
    ensures n * k > m * k <==> n > m
  {
    if n < m { MulStrict(n, m, k); }
    if m < n { MulStrict(m, n, k); }
  }

  /** The denormal path rounds the value to a multiple of the smallest denormal, and its
      loss code tells the truth about that. */
  lemma TinyLoss(kmin: nat, mode: Mode, r: Reg, t: Reg)
    requires 64 <= kmin <= 16508 && TagOf(r) == Valid && r.Exponent() + 16445 <= kmin
    requires t.Sig() == r.Sig() && t.Neg() == r.Neg() && t.Exponent() == r.Exponent() + 16508 - kmin
    ensures var n, code := RoundedSig(mode, t, Valid), RoundingCode(mode, t, Valid);
      && n == Denormals(kmin, mode, r) && code != TooBig
      && (code == Exact <==> n * Pow2(kmin) == Mag(r)) && (code == LostUp <==> n * Pow2(kmin) > Mag(r))
  {
    hide Pow2, RoundMag, RoundedSig, RoundingCode, Mag;
    MagValid(r);
    assert 63 - t.Exponent() == kmin - (r.Exponent() + 16445);
    RoundingCodeTruthful(mode, t, Valid);
    RoundedSigIs(mode, t);
    TinyScaled(kmin, mode, r.Neg(), r.Sig(), r.Exponent() + 16445, RoundedSig(mode, t, Valid));
  }

  lemma RoundedSigIs(mode: Mode, t: Reg)
    requires t.Exponent() <= 63
    ensures RoundedSig(mode, t, Valid) == RoundMag(mode, t.Neg(), t.Sig(), Pow2(63 - t.Exponent()))
    ensures RoundingCode(mode, t, Valid) != TooBig
  {
    hide Pow2, RoundMag;
  }

  lemma TinyScaled(kmin: nat, mode: Mode, neg: bool, s: nat, a: nat, n: nat)
    requires a <= kmin && n == RoundMag(mode, neg, s, Pow2(kmin - a))
    ensures n == RoundMag(mode, neg, s * Pow2(a), Pow2(kmin))
    ensures n * Pow2(kmin - a) == s <==> n * Pow2(kmin) == s * Pow2(a)
    ensures n * Pow2(kmin - a) > s <==> n * Pow2(kmin) > s * Pow2(a)
  {
    hide Pow2, RoundMag;
    var q := Pow2(kmin - a);
    Pow2Add(kmin - a, a);
    RoundMagScale(mode, neg, s, q, Pow2(a));
    MulAssoc(n, q, Pow2(a));
    Unscaled(n * q, s, Pow2(a));
  }

  /** A denormal register is far below the smallest denormal of both formats. */
  lemma DenormalLoss(kmin: nat, mode: Mode, r: Reg)
    requires 128 <= kmin && r.Field() == 0 && r.Sig() > 0
    ensures var n, code := RoundedSig(mode, r, Denormal), RoundingCode(mode, r, Denormal);
      && n == Denormals(kmin, mode, r) <= 1
      && code != TooBig && code != Exact && n * Pow2(kmin) != Mag(r)
      && (code == LostUp <==> n * Pow2(kmin) > Mag(r))
  {
    hide Pow2, RoundMag, RoundedSig, RoundingCode, Mag;
    DenormalCode(mode, r);
    DenormalBelow(kmin, r);
    RoundMagTiny(mode, r.Neg(), Mag(r), Pow2(kmin));
  }

  lemma DenormalCode(mode: Mode, r: Reg)
    requires r.Field() == 0 && r.Sig() > 0
    ensures RoundedSig(mode, r, Denormal) == if Away(mode, r.Neg()) then 1 else 0
    ensures RoundingCode(mode, r, Denormal) == if Away(mode, r.Neg()) then LostUp else LostDown
  {
    hide Pow2, RoundMag;
    var n, s := 63 - r.Exponent(), r.Sig();
    TinyShift(mode, r.Neg(), s, n);
    NumericDenormal(r, n);
    ModSmall(s, Pow2(n));
    DivModUnique(s, 0, s, Pow2(n));
  }

  lemma DenormalBelow(kmin: nat, r: Reg)
    requires 128 <= kmin && r.Field() == 0 && r.Sig() > 0
    ensures 0 < Mag(r) && 2 * Mag(r) < Pow2(kmin)
  {
    hide Pow2;
    NumericDenormal(r, kmin - 64);
    Pow2Add(kmin - 64, 63);
    Doubled(kmin - 1);
    MulStrict(r.Sig(), Pow2(kmin - 64), Pow2(63));
    MulAtLeast(r.Sig(), Pow2(63));
  }

  lemma NumericDenormal(r: Reg, n: nat)
    requires n >= 64
    ensures r.Sig() < Pow2(n)
  {
    hide Pow2;
    Pow2Values();
    Pow2Mono(64, n);
  }

  /** Where a normal register lies: 2^(e + 16508) is the power of two at or below it. */
  lemma Binade(r: Reg, k: nat)
    requires TagOf(r) == Valid
    ensures r.Exponent() + 16508 >= k ==> Mag(r) >= Pow2(k)
    ensures r.Exponent() + 16508 < k ==> Mag(r) < Pow2(k)
  {
    hide Pow2;
    MagValid(r);
    Pow2Values();
    var a: nat := r.Exponent() + 16445;
    MulMono(Pow2(63), r.Sig(), Pow2(a));
    MulStrict(r.Sig(), Pow2(64), Pow2(a));
    Pow2Add(63, a);
    Pow2Add(64, a);
    if a + 63 >= k { Pow2Mono(k, a + 63); } else { Pow2Mono(a + 64, k); }
  }

  lemma NotTooLarge(p: nat, ktop: nat, mode: Mode, r: Reg)
    requires p >= 1 && Mag(r) < Pow2(p - 1 + ktop)
    ensures !TooLarge(p, ktop, mode, r)
  {
    hide Pow2, RoundMag, Mag;
    Pow2Add(p - 1, ktop);
    Doubled(p - 1);
    FloorBelow(Mag(r), Pow2(p - 1), Pow2(ktop));
    RoundMagNear(mode, r.Neg(), Mag(r), Pow2(ktop));
  }

  /** The condition of the overflow branch, in values. */
  lemma TooLargeIff(p: nat, q: nat, half: nat, ktop: nat, mode: Mode, r: Reg)
    requires 1 <= p <= 64 && q == Pow2(64 - p) && half == Pow2(p - 1) && TagOf(r) == Valid && ktop + p >= 16509
    ensures TooLarge(p, ktop, mode, r) <==> RoundedExponent(mode, r, q, half) + 16509 > ktop + p
  {
    hide Pow2, RoundMag, Mag;
    var e := r.Exponent();
    Doubled(p - 1);
    if e + 16509 > ktop + p {
      Binade(r, ktop + p);
      Pow2Add(p, ktop);
      FloorAtLeast(Mag(r), Pow2(p), Pow2(ktop));
      RoundMagNear(mode, r.Neg(), Mag(r), Pow2(ktop));
    } else if e + 16509 < ktop + p {
      Binade(r, ktop + p - 1);
      NotTooLarge(p, ktop, mode, r);
    } else {
      MagValid(r);
      Pow2Add(64 - p, e + 16445);
      RoundMagScale(mode, r.Neg(), r.Sig(), q, Pow2(e + 16445));
      Pow2Values();
      Pow2Add(p - 1, 64 - p);
      MantissaRange(mode, r, q, half);
    }
  }

  /** The status of the denormal path. */
  lemma TinyInRange(p: nat, kmin: nat, cw: Control, sw: Status, r: Reg, loss: Loss)
    requires 1 <= p <= 64 && TinyFor(p, kmin, r) && loss != TooBig
    requires var y := Denormals(kmin, cw.rc, r) * Pow2(kmin);
      && CorrectlyRounded(p, kmin, cw.rc, r.Neg(), Mag(r), y)
      && (loss == Exact <==> y == Mag(r)) && (loss == LostUp <==> y > Mag(r))
    ensures var (ok, x) := TinyStatus(cw, sw, loss, Peculiar(p, kmin, cw.rc, r));
      InRangeStatus(p, kmin, cw, sw, r, x, if ok then Some(Denormals(kmin, cw.rc, r) * Pow2(kmin)) else None)
  {
    hide Pow2, RoundMag, Mag, CorrectlyRounded, Representable, TinyStatus, OtherFlags, Peculiar, Denormals, TinyFor;
    RoundedIsSame(p, kmin, cw.rc, r.Neg(), Mag(r), Denormals(kmin, cw.rc, r) * Pow2(kmin));
    TinyStatusEffect(cw, sw, loss, Peculiar(p, kmin, cw.rc, r));
    Unchanged(sw);
  }

  lemma Unchanged(sw: Status)
    ensures OtherFlags(sw, sw)
  {
  }

  /** The status of the normal path, without overflow. */
  lemma NormalInRange(p: nat, kmin: nat, cw: Control, sw: Status, r: Reg, q: nat, y: nat)
    requires 1 <= p <= 64 && q > 0 && TagOf(r) == Valid && !TinyFor(p, kmin, r)
    requires y == RoundMag(cw.rc, r.Neg(), r.Sig(), q) * q * Pow2(r.Exponent() + 16445)
    requires CorrectlyRounded(p, kmin, cw.rc, r.Neg(), Mag(r), y)
    ensures InRangeStatus(p, kmin, cw, sw, r, InexactStatus(cw, sw, r, q), Some(y))
  {
    hide Pow2, RoundMag, Mag, CorrectlyRounded, Representable, InexactStatus, OtherFlags, Peculiar, Denormals, TinyFor;
    RoundedIsSame(p, kmin, cw.rc, r.Neg(), Mag(r), y);
    InexactStatusEffect(cw, sw, r, q);
    MagValid(r);
    Unscaled(RoundMag(cw.rc, r.Neg(), r.Sig(), q) * q, r.Sig(), Pow2(r.Exponent() + 16445));
  }

  // ----- doubles -----

  const DOUBLE_KTOP: nat := 17479
  const SINGLE_KTOP: nat := 16612

  lemma DoubleTinyFor(r: Reg)
    requires Numeric(r)
    ensures TinyFor(53, DOUBLE_KMIN, r) <==> TagOf(r) != Valid || r.Exponent() < -1022
    ensures TinyFor(53, DOUBLE_KMIN, r) ==> forall mode :: !TooLarge(53, DOUBLE_KTOP, mode, r)
  {
    hide Pow2, Mag, RoundMag, TooLarge;
    if TagOf(r) == Valid {
      Binade(r, 52 + DOUBLE_KMIN);
    } else {
      DenormalBelow(DOUBLE_KMIN, r);
      Pow2Mono(DOUBLE_KMIN, 52 + DOUBLE_KMIN);
    }
    if TinyFor(53, DOUBLE_KMIN, r) {
      Pow2Mono(52 + DOUBLE_KMIN, 52 + DOUBLE_KTOP);
      forall mode ensures !TooLarge(53, DOUBLE_KTOP, mode, r) { NotTooLarge(53, DOUBLE_KTOP, mode, r); }
    }
  }

  ghost function WrittenDouble(x: Stored<Double>): Option<nat> {
    if x.image.Some? then Some(DoubleMag(x.image.value)) else None
  }

  lemma TinyDoubleStatus(cw: Control, sw: Status, r: Reg)
    requires TagOf(r) == Valid && r.Exponent() < -1022 && TinyFor(53, DOUBLE_KMIN, r)
    ensures var x := TinyDouble(cw, sw, r, r.(exp := r.exp + 1074), Valid);
      InRangeStatus(53, DOUBLE_KMIN, cw, sw, r, x.sw, WrittenDouble(x))
  {
    hide Pow2, RoundMag, Mag, CorrectlyRounded, TinyStatus, InRangeStatus, DoubleMag, TinyFor, RoundedSig, RoundingCode;
    var t := r.(exp := r.exp + 1074);
    assert t.Field() == r.Field() + 1074 && t.Neg() == r.Neg();
    assert Pow2(52) == TWO52 && Pow2(11) == 0x800 by { Pow2Values(); }
    TinyMag(53, DOUBLE_KMIN, cw.rc, r, t);
    TinyLoss(DOUBLE_KMIN, cw.rc, r, t);
    LowBits(r);
    TinyInRange(53, DOUBLE_KMIN, cw, sw, r, RoundingCode(cw.rc, t, Valid));
    TinyDoubleImage(cw, sw, r, t, Valid);
  }

  lemma TinyDoubleImage(cw: Control, sw: Status, r: Reg, t: Reg, tag: Tag)
    requires RoundedSig(cw.rc, t, tag) <= TWO52
    ensures var x, n := TinyDouble(cw, sw, r, t, tag), RoundedSig(cw.rc, t, tag);
      x.image.Some? ==> DoubleMag(x.image.value) == n * Pow2(DOUBLE_KMIN)
  {
    hide Pow2, DoubleMag, RoundedSig, RoundingCode, TinyStatus;
    var x := TinyDouble(cw, sw, r, t, tag);
    if x.image.Some? { TinyDoubleFields(r.Neg(), RoundedSig(cw.rc, t, tag), x.image.value); }
  }

  lemma LowBits(r: Reg)
    ensures r.Sig() % 0x800 == r.sigl % 0x800
  {
    ModEqual(r.Sig(), r.sigl, r.sigh * 0x20_0000, 0x800);
  }

  lemma DenormalDoubleStatus(cw: Control, sw: Status, r: Reg)
    requires r.Field() == 0 && r.Sig() > 0 && TinyFor(53, DOUBLE_KMIN, r)
    ensures var x := TinyDouble(cw, sw, r, r, Denormal);
      InRangeStatus(53, DOUBLE_KMIN, cw, sw, r, x.sw, WrittenDouble(x))
  {
    hide Pow2, RoundMag, Mag, CorrectlyRounded, TinyStatus, InRangeStatus, DoubleMag, TinyFor, RoundedSig, RoundingCode;
    assert Pow2(52) == TWO52 && Pow2(11) == 0x800 by { Pow2Values(); }
    DenormalRounds(53, DOUBLE_KMIN, cw.rc, r);
    DenormalLoss(DOUBLE_KMIN, cw.rc, r);
    TinyInRange(53, DOUBLE_KMIN, cw, sw, r, RoundingCode(cw.rc, r, Denormal));
    TinyDoubleImage(cw, sw, r, r, Denormal);
  }

  lemma NormalDoubleStatus(cw: Control, sw: Status, r: Reg)
    requires TagOf(r) == Valid && r.Exponent() >= -1022 && !TinyFor(53, DOUBLE_KMIN, r)
    requires !DoubleOverflows(cw.rc, r)
    ensures var x := NormalDouble(cw, sw, r);
      InRangeStatus(53, DOUBLE_KMIN, cw, sw, r, x.sw, WrittenDouble(x))
  {
    hide Pow2, RoundMag, Mag, CorrectlyRounded, InRangeStatus, DoubleMag, TinyFor, InexactStatus;
    var a, n := r.Exponent() + 16445, RoundMag(cw.rc, r.Neg(), r.Sig(), 0x800);
    assert Pow2(11) == 0x800 by { Pow2Values(); }
    NormalDoubleCorrect(cw, sw, r);
    Pow2Add(11, a);
    MulAssoc(n, 0x800, Pow2(a));
    NormalInRange(53, DOUBLE_KMIN, cw, sw, r, 0x800, n * 0x800 * Pow2(a));
  }

  lemma LargeDoubleStatus(cw: Control, sw: Status, r: Reg)
    requires TagOf(r) == Valid && DoubleOverflows(cw.rc, r)
    ensures var x := NormalDouble(cw, sw, r); TooLargeStatus(cw, sw, x.sw, x.image.Some?)
  {
    hide RoundMag, TooLargeStatus, OverflowStatus;
    OverflowStatusEffect(cw, sw);
  }

  /** The store of a number as a double: each flag, C1, and whether memory is written,
      from the number alone. An overflow and an underflow are flagged exactly when the
      value is too large or tiny and inexact (but for the exception of the 80486), and
      the precision exception exactly when it is inexact, unless one of the others stops
      the store first; then C1 says whether what is written lies above the value. */
  lemma DoubleStatus(cw: Control, sw: Status, r: Reg)
    requires Numeric(r)
    ensures var x := StoreDoubleSpec(cw, sw, r, TagOf(r));
      if TooLarge(53, DOUBLE_KTOP, cw.rc, r) then TooLargeStatus(cw, sw, x.sw, x.image.Some?)
      else InRangeStatus(53, DOUBLE_KMIN, cw, sw, r, x.sw, WrittenDouble(x))
  {
    hide Pow2, RoundMag, Mag, CorrectlyRounded, InRangeStatus, TooLargeStatus, DoubleMag, TinyFor, TooLarge, TinyDouble,
         NormalDouble, RoundedExponent;
    DoubleTinyFor(r);
    if TagOf(r) != Valid {
      DenormalDoubleStatus(cw, sw, r);
    } else if r.Exponent() < -1022 {
      TinyDoubleStatus(cw, sw, r);
    } else {
      assert Pow2(52) == TWO52 && Pow2(11) == 0x800 by { Pow2Values(); }
      TooLargeIff(53, 0x800, TWO52, DOUBLE_KTOP, cw.rc, r);
      if DoubleOverflows(cw.rc, r) { LargeDoubleStatus(cw, sw, r); } else { NormalDoubleStatus(cw, sw, r); }
    }
  }

  // ----- singles -----

  lemma SingleTinyFor(r: Reg)
    requires Numeric(r)
    ensures TinyFor(24, SINGLE_KMIN, r) <==> TagOf(r) != Valid || r.Exponent() < -126
    ensures TinyFor(24, SINGLE_KMIN, r) ==> forall mode :: !TooLarge(24, SINGLE_KTOP, mode, r)
  {
    hide Pow2, Mag, RoundMag, TooLarge;
    if TagOf(r) == Valid {
      Binade(r, 23 + SINGLE_KMIN);
    } else {
      DenormalBelow(SINGLE_KMIN, r);
      Pow2Mono(SINGLE_KMIN, 23 + SINGLE_KMIN);
    }
    if TinyFor(24, SINGLE_KMIN, r) {
      Pow2Mono(23 + SINGLE_KMIN, 23 + SINGLE_KTOP);
      forall mode ensures !TooLarge(24, SINGLE_KTOP, mode, r) { NotTooLarge(24, SINGLE_KTOP, mode, r); }
    }
  }

  ghost function WrittenSingle(x: Stored<u32>): Option<nat> {
    if x.image.Some? then Some(SingleMag(x.image.value)) else None
  }

  lemma TinySingleImage(cw: Control, sw: Status, r: Reg, t: Reg, tag: Tag)
    requires RoundedSig(cw.rc, t, tag) <= TWO23
    ensures var x, n := TinySingle(cw, sw, r, t, tag), RoundedSig(cw.rc, t, tag);
      && (x.image.Some? ==> SingleMag(x.image.value) == n * Pow2(SINGLE_KMIN))
      && n % TWO32 == n
  {
    hide Pow2, SingleMag, RoundedSig, RoundingCode, TinyStatus;
    var x, n := TinySingle(cw, sw, r, t, tag), RoundedSig(cw.rc, t, tag);
    ModSmall(n, TWO32);
    if x.image.Some? { TinySingleFields(r.Neg(), n, x.image.value); }
  }

  lemma LowBitsOfSingle(r: Reg)
    ensures r.Sig() % 0x100_0000_0000 != 0 <==> r.sigh % 0x100 != 0 || r.sigl != 0
  {
    ModEqual(r.Sig(), r.sigh % 0x100 * TWO32 + r.sigl, r.sigh / 0x100, 0x100_0000_0000);
    ModSmall(r.sigh % 0x100 * TWO32 + r.sigl, 0x100_0000_0000);
  }

  lemma TinySingleStatus(cw: Control, sw: Status, r: Reg)
    requires TagOf(r) == Valid && r.Exponent() < -126 && TinyFor(24, SINGLE_KMIN, r)
    ensures var x := TinySingle(cw, sw, r, r.(exp := r.exp + 149), Valid);
      InRangeStatus(24, SINGLE_KMIN, cw, sw, r, x.sw, WrittenSingle(x))
  {
    hide Pow2, RoundMag, Mag, CorrectlyRounded, TinyStatus, InRangeStatus, SingleMag, TinyFor, RoundedSig, RoundingCode;
    var t := r.(exp := r.exp + 149);
    assert t.Field() == r.Field() + 149 && t.Neg() == r.Neg();
    assert Pow2(23) == TWO23 && Pow2(40) == 0x100_0000_0000 by { Pow2Values(); }
    TinyMag(24, SINGLE_KMIN, cw.rc, r, t);
    TinyLoss(SINGLE_KMIN, cw.rc, r, t);
    LowBitsOfSingle(r);
    TinyInRange(24, SINGLE_KMIN, cw, sw, r, RoundingCode(cw.rc, t, Valid));
    TinySingleImage(cw, sw, r, t, Valid);
  }

  lemma DenormalSingleStatus(cw: Control, sw: Status, r: Reg)
    requires r.Field() == 0 && r.Sig() > 0 && TinyFor(24, SINGLE_KMIN, r)
    ensures var x := TinySingle(cw, sw, r, r, Denormal);
      InRangeStatus(24, SINGLE_KMIN, cw, sw, r, x.sw, WrittenSingle(x))
  {
    hide Pow2, RoundMag, Mag, CorrectlyRounded, TinyStatus, InRangeStatus, SingleMag, TinyFor, RoundedSig, RoundingCode;
    assert Pow2(23) == TWO23 && Pow2(40) == 0x100_0000_0000 by { Pow2Values(); }
    DenormalRounds(24, SINGLE_KMIN, cw.rc, r);
    DenormalLoss(SINGLE_KMIN, cw.rc, r);
    TinySingleImage(cw, sw, r, r, Denormal);
    TinyInRange(24, SINGLE_KMIN, cw, sw, r, RoundingCode(cw.rc, r, Denormal));
  }

  lemma NormalSingleStatus(cw: Control, sw: Status, r: Reg)
    requires TagOf(r) == Valid && r.Exponent() >= -126 && !TinyFor(24, SINGLE_KMIN, r)
    requires !SingleOverflows(cw.rc, r)
    ensures var x := NormalSingle(cw, sw, r);
      InRangeStatus(24, SINGLE_KMIN, cw, sw, r, x.sw, WrittenSingle(x))
  {
    hide Pow2, RoundMag, Mag, CorrectlyRounded, InRangeStatus, SingleMag, TinyFor, InexactStatus;
    var a, q := r.Exponent() + 16445, 0x100_0000_0000;
    var n := RoundMag(cw.rc, r.Neg(), r.Sig(), q);
    assert Pow2(40) == q by { Pow2Values(); }
    NormalSingleCorrect(cw, sw, r);
    Pow2Add(40, a);
    MulAssoc(n, q, Pow2(a));
    NormalInRange(24, SINGLE_KMIN, cw, sw, r, q, n * q * Pow2(a));
  }

  lemma LargeSingleStatus(cw: Control, sw: Status, r: Reg)
    requires TagOf(r) == Valid && SingleOverflows(cw.rc, r)
    ensures var x := NormalSingle(cw, sw, r); TooLargeStatus(cw, sw, x.sw, x.image.Some?)
  {
    hide RoundMag, TooLargeStatus, OverflowStatus;
    OverflowStatusEffect(cw, sw);
  }

  /** The same for singles. */
  lemma SingleStatus(cw: Control, sw: Status, r: Reg)
    requires Numeric(r)
    ensures var x := StoreSingleSpec(cw, sw, r, TagOf(r));
      if TooLarge(24, SINGLE_KTOP, cw.rc, r) then TooLargeStatus(cw, sw, x.sw, x.image.Some?)
      else InRangeStatus(24, SINGLE_KMIN, cw, sw, r, x.sw, WrittenSingle(x))
  {
    hide Pow2, RoundMag, Mag, CorrectlyRounded, InRangeStatus, TooLargeStatus, SingleMag, TinyFor, TooLarge, TinySingle,
         NormalSingle, RoundedExponent;
    SingleTinyFor(r);
    if TagOf(r) != Valid {
      DenormalSingleStatus(cw, sw, r);
    } else if r.Exponent() < -126 {
      TinySingleStatus(cw, sw, r);
    } else {
      assert Pow2(23) == TWO23 && Pow2(40) == 0x100_0000_0000 by { Pow2Values(); }
      TooLargeIff(24, 0x100_0000_0000, TWO23, SINGLE_KTOP, cw.rc, r);
      if SingleOverflows(cw.rc, r) { LargeSingleStatus(cw, sw, r); } else { NormalSingleStatus(cw, sw, r); }
    }
  }
}
