/** FPU_store_double and FPU_store_single as the source has them, on 32-bit words:
    rounding by carries from word to word, and the words put together by shifts. */
module StoreRealCode {
  import opened Arith
  import opened Powers
  import opened Rounding
  import opened FpuRegs
  import opened FpuState
  import opened FpuMachine
  import opened StoreReal
  import opened StoreRealCorrect

  // ----- double -----

  /** The increment that the switch on the rounding control computes. */
  predicate DoubleIncrement(mode: Mode, neg: bool, sigl: u32) {
    match mode
    case RND => sigl % 0x800 > 0x400 || sigl / 0x400 % 4 == 3
    case DOWN => neg && sigl % 0x800 != 0
    case UP => !neg && sigl % 0x800 != 0
    case CHOP => false
  }

  lemma DoubleIncrementIsRoundMag(mode: Mode, r: Reg)
    requires r.sigl % 0x800 != 0
    ensures r.Sig() / 0x800 == r.sigh * 0x20_0000 + r.sigl / 0x800 && r.Sig() % 0x800 == r.sigl % 0x800
    ensures RoundMag(mode, r.Neg(), r.Sig(), 0x800)
         == r.Sig() / 0x800 + if DoubleIncrement(mode, r.Neg(), r.sigl) then 1 else 0
  {
    var f, low := r.sigh * 0x20_0000 + r.sigl / 0x800, r.sigl % 0x800;
    DivModUnique(r.Sig(), f, low, 0x800);
    OddSticky(r.sigl, r.sigh);
  }

  /** (sigl & 0xc00) == 0xc00: the last kept bit and the first lost one are set. */
  lemma OddSticky(sigl: u32, sigh: u32)
    ensures sigl / 0x400 % 4 == 3 <==> sigl / 0x800 % 2 == 1 && sigl % 0x800 >= 0x400
    ensures (sigh * 0x20_0000 + sigl / 0x800) % 2 == sigl / 0x800 % 2
  {
    var a, b := sigl / 0x800, sigl % 0x800;
    var h := if b >= 0x400 then 1 else 0;
    DivModUnique(sigl, 2 * a + h, b - h * 0x400, 0x400);
    DivModUnique(2 * a + h, a / 2, 2 * (a % 2) + h, 4);
    ModEqual(sigh * 0x20_0000 + a, a, sigh * 0x10_0000, 2);
  }

  /** The 32 bits that a masked overflow leaves in the low word are all zero exactly
      when the bits of the significand that go there, incremented, are: a condition on
      the register and the rounding control alone. */
  lemma OverflowWritesInfinityBits(cw: Control, sw: Status, r: Reg)
    requires TagOf(r) == Valid && DoubleOverflows(cw.rc, r) && r.Exponent() >= -1022
    requires cw.masks.overflow && cw.masks.precision
    ensures var d := StoreDoubleSpec(cw, sw, r, Valid).image;
      && d.Some?
      && (DoubleFrac(d.value) == 0 <==>
          (r.sigh % 0x800 * 0x20_0000 + r.sigl / 0x800 + if DoubleIncrement(cw.rc, r.Neg(), r.sigl) then 1 else 0)
          % TWO32 == 0)
  {
    hide StoreDoubleSpec, DoubleOverflows, RoundMag, DoubleFrac, DoubleExp;
    OverflowWritesInfinityIff(cw, sw, r);
    RoundedLowWord(cw.rc, r);
  }

  /** The integer part of sig / 2^11, with the increment also when nothing is lost. */
  lemma DoubleRounds(mode: Mode, r: Reg)
    ensures r.Sig() / 0x800 == r.sigh * 0x20_0000 + r.sigl / 0x800 && r.Sig() % 0x800 == r.sigl % 0x800
    ensures RoundMag(mode, r.Neg(), r.Sig(), 0x800)
         == r.sigh * 0x20_0000 + r.sigl / 0x800 + if DoubleIncrement(mode, r.Neg(), r.sigl) then 1 else 0
    ensures r.sigl % 0x800 == 0 ==> !DoubleIncrement(mode, r.Neg(), r.sigl)
  {
    OddSticky(r.sigl, r.sigh);
    if r.sigl % 0x800 != 0 {
      DoubleIncrementIsRoundMag(mode, r);
    } else {
      var m := r.sigh * 0x20_0000 + r.sigl / 0x800;
      assert r.Sig() == m * 0x800;
      DivModUnique(r.Sig(), m, 0, 0x800);
      RoundMagExact(mode, r.Neg(), m, 0x800);
    }
  }

  lemma RoundedLowWord(mode: Mode, r: Reg)
    ensures RoundMag(mode, r.Neg(), r.Sig(), 0x800) % TWO32
         == (r.sigh % 0x800 * 0x20_0000 + r.sigl / 0x800 + if DoubleIncrement(mode, r.Neg(), r.sigl) then 1 else 0)
            % TWO32
  {
    var inc := if DoubleIncrement(mode, r.Neg(), r.sigl) then 1 else 0;
    var low := r.sigh % 0x800 * 0x20_0000 + r.sigl / 0x800 + inc;
    DoubleRounds(mode, r);
    ModEqual(r.sigh * 0x20_0000 + r.sigl / 0x800 + inc, low, r.sigh / 0x800, TWO32);
  }

  /** Rounds the significand to 53 bits in place, carrying from sigl into sigh and
      from sigh into the exponent. */
  method RoundDoubleWords(tmp: FpuReg, mode: Mode) returns (loss: bool, increment: bool, carry: bool)
    requires tmp.sigh >= BIT31
    modifies tmp`sigl, tmp`sigh
    ensures var r, n := old(tmp.Val()), RoundMag(mode, old(tmp.Val()).Neg(), old(tmp.Val()).Sig(), 0x800);
      && loss == (r.Sig() % 0x800 != 0) && increment == (n > r.Sig() / 0x800)
      && carry == (n == 2 * TWO52)
      && tmp.sigl % 0x800 == 0 && tmp.sigh * 0x20_0000 + tmp.sigl / 0x800 == Mantissa(mode, r, 0x800, TWO52)
  {
    hide RoundMag, DoubleIncrement;
    DoubleRounds(mode, tmp.Val());
    carry, increment := false, false;
    loss := tmp.sigl % 0x800 != 0;
    if loss {
      increment := DoubleIncrement(mode, tmp.Val().Neg(), tmp.sigl);
      tmp.sigl := tmp.sigl - tmp.sigl % 0x800;
      if increment {
        if tmp.sigl >= 0xffff_f800 {
          if tmp.sigh == 0xffff_ffff {
            tmp.sigh := 0x8000_0000;
            carry := true;
          } else {
            tmp.sigh := tmp.sigh + 1;
          }
          tmp.sigl := 0;
        } else {
          tmp.sigl := tmp.sigl + 0x800;
        }
      }
    }
  }

  /** (sigl >> 11) | (sigh << 21) and (sigh >> 11) & 0xfffff are the two halves of the
      fraction. */
  lemma DoubleWords(sigl: u32, sigh: u32, m: nat)
    requires sigh >= BIT31 && m == sigh * 0x20_0000 + sigl / 0x800
    ensures sigl / 0x800 + sigh % 0x800 * 0x20_0000 == m % TWO32
    ensures TWO52 <= m < 2 * TWO52 && sigh / 0x800 % 0x10_0000 == (m - TWO52) / TWO32
    ensures (m - TWO52) % TWO32 == m % TWO32
  {
    var a, b := sigh / 0x800, sigh % 0x800;
    DivModUnique(m, a, b * 0x20_0000 + sigl / 0x800, TWO32);
    DivModUnique(m - TWO52, a - 0x10_0000, b * 0x20_0000 + sigl / 0x800, TWO32);
    ModEqual(a, a - 0x10_0000, 1, 0x10_0000);
    ModSmall(a - 0x10_0000, 0x10_0000);
  }

  lemma DoubleWordsPack(neg: bool, sigl: u32, sigh: u32, m: nat, be: nat)
    requires sigh >= BIT31 && m == sigh * 0x20_0000 + sigl / 0x800 && be < 0x800
    ensures TWO52 <= m < 2 * TWO52
    ensures PackDouble(neg, m - TWO52, be)
         == Double(sigl / 0x800 + sigh % 0x800 * 0x20_0000, WithSign(neg, sigh / 0x800 % 0x10_0000 + be * 0x10_0000))
  {
    DoubleWords(sigl, sigh, m);
  }

  /** The path for a valid register whose exponent is at least DOUBLE_Emin. */
  method StoreNormalDouble(f: Fpu, st0: FpuReg) returns (ok: bool, l0: u32, l1: u32)
    requires st0.sigh >= BIT31
    modifies f`partialStatus
    ensures var s := NormalDouble(f.controlWord, old(f.partialStatus), st0.Val());
      && f.partialStatus == s.sw && ok == s.image.Some?
      && (ok ==> s.image.value == Double(l0, WithSign(st0.Val().Neg(), l1)))
  {
    hide Pow2, Pending, SomeUnmasked, Exception, SetPrecisionUpDown, NormalDouble, RoundMag;
    var tmp := new FpuReg(st0.Val());
    var exp := tmp.Val().Exponent();
    var loss, increment, carry := RoundDoubleWords(tmp, f.controlWord.rc);
    if carry {
      exp := exp + 1;
      assert exp >= EXP_OVER ==> exp > 1023;
    }
    MantissaRange(f.controlWord.rc, st0.Val(), 0x800, TWO52);
    ok, l0, l1 := SplitDouble(f, st0.Val(), tmp.sigl, tmp.sigh, exp, loss, increment);
  }

  /** The two words of the rounded significand with its exponent, or of an overflow. */
  method SplitDouble(f: Fpu, ghost r: Reg, sigl: u32, sigh: u32, exp: int, loss: bool, increment: bool)
      returns (ok: bool, l0: u32, l1: u32)
    requires r.Sig() >= TWO63 && sigh >= BIT31
    requires sigh * 0x20_0000 + sigl / 0x800 == Mantissa(f.controlWord.rc, r, 0x800, TWO52)
    requires exp == RoundedExponent(f.controlWord.rc, r, 0x800, TWO52) && loss == (r.Sig() % 0x800 != 0)
    requires increment == (RoundMag(f.controlWord.rc, r.Neg(), r.Sig(), 0x800) > r.Sig() / 0x800)
    modifies f`partialStatus
    ensures var s := NormalDouble(f.controlWord, old(f.partialStatus), r);
      && f.partialStatus == s.sw && ok == s.image.Some?
      && (ok ==> s.image.value == Double(l0, WithSign(r.Neg(), l1)))
  {
    hide Mantissa, RoundedExponent, RoundMag, Pow2, Pending, SomeUnmasked, Exception, SetPrecisionUpDown;
    ghost var m := Mantissa(f.controlWord.rc, r, 0x800, TWO52);
    DoubleWords(sigl, sigh, m);
    DoubleWordsPack(r.Neg(), sigl, sigh, m, (exp + 1023) % 0x800);
    l0 := sigl / 0x800 + sigh % 0x800 * 0x20_0000;
    l1 := sigh / 0x800 % 0x10_0000;
    if exp > 1023 {
      ok := RaiseOverflow(f);
      l1 := 0x7ff0_0000;
    } else {
      RaiseInexact(f, loss, increment);
      l1 := l1 + (exp + 1023) % 0x800 * 0x10_0000;
      ok := true;
    }
  }

  /** From the label overflow to the masked response. */
  method RaiseOverflow(f: Fpu) returns (ok: bool)
    modifies f`partialStatus
    ensures (ok, f.partialStatus) == OverflowStatus(f.controlWord, old(f.partialStatus))
  {
    f.Exception(Overflow);
    if !f.controlWord.masks.overflow { return false; }
    f.SetPrecisionUpDown(true);
    ok := f.controlWord.masks.precision;
  }

  method RaiseInexact(f: Fpu, loss: bool, increment: bool)
    modifies f`partialStatus
    ensures f.partialStatus ==
      if loss then SetPrecisionUpDown(f.controlWord, old(f.partialStatus), increment) else old(f.partialStatus)
  {
    if loss {
      f.SetPrecisionUpDown(increment);
    }
  }

  /** From the label denormal_arg on. */
  method StoreTinyDouble(f: Fpu, st0: FpuReg, tmp: FpuReg, tag: Tag) returns (ok: bool, l0: u32, l1: u32)
    requires st0 != tmp
    modifies f`partialStatus, tmp`sigl, tmp`sigh
    ensures var s := TinyDouble(f.controlWord, old(f.partialStatus), st0.Val(), old(tmp.Val()), tag);
      && f.partialStatus == s.sw && ok == s.image.Some?
      && (ok ==> s.image.value == Double(l0, WithSign(st0.Val().Neg(), l1)))
  {
    l0, l1 := 0, 0;
    var loss := RoundToInt(tmp, tag, f.controlWord.rc);
    Words(tmp.Val());
    if loss != Exact {
      if !(tmp.sigh == 0x0010_0000 && tmp.sigl == 0 && st0.sigl % 0x800 != 0) {
        f.Exception(Underflow);
        if !f.controlWord.masks.underflow { return false, l0, l1; }
      }
      RaiseLoss(f, loss);
      if !f.controlWord.masks.precision { return false, l0, l1; }
    }
    l0, l1 := tmp.sigl, tmp.sigh;
    ok := true;
  }

  /** EXCEPTION(precision_loss) */
  method RaiseLoss(f: Fpu, loss: Loss)
    modifies f`partialStatus
    ensures f.partialStatus == LossException(f.controlWord, old(f.partialStatus), loss)
  {
    match loss
    case Exact =>
    case TooBig => f.Exception(Invalid);
    case LostUp => f.Exception(Precision(true));
    case LostDown => f.Exception(Precision(false));
  }

  method StoreNumericDouble(f: Fpu, st0: FpuReg, kind: Tag) returns (ok: bool, l0: u32, l1: u32)
    requires (kind == Valid && TagOf(st0.Val()) == Valid) || kind == Denormal
    modifies f`partialStatus
    ensures var s := NumericDouble(f.controlWord, old(f.partialStatus), st0.Val(), kind);
      && f.partialStatus == s.sw && ok == s.image.Some?
      && (ok ==> s.image.value == Double(l0, WithSign(st0.Val().Neg(), l1)))
  {
    if kind == Valid && st0.Val().Exponent() >= -1022 {
      ok, l0, l1 := StoreNormalDouble(f, st0);
      return;
    }
    var tmp := new FpuReg(st0.Val());
    if kind == Valid {
      tmp.exp := tmp.exp + 1074;
    }
    ok, l0, l1 := StoreTinyDouble(f, st0, tmp, kind);
  }

  method StoreNaNDouble(f: Fpu, st0: FpuReg) returns (ok: bool, l0: u32, l1: u32)
    modifies f`partialStatus
    ensures var s := NaNDouble(f.controlWord, old(f.partialStatus), st0.Val());
      && f.partialStatus == s.sw && ok == s.image.Some?
      && (ok ==> s.image.value == Double(l0, WithSign(st0.Val().Neg(), l1)))
  {
    l0, l1 := 0, 0;
    if st0.Val().Exponent() == EXP_OVER && st0.sigh >= BIT31 {
      l0 := st0.sigl / 0x800 + st0.sigh % 0x800 * 0x20_0000;
      l1 := st0.sigh / 0x800 % 0x10_0000;
      if st0.sigh % BIT31 < 0x4000_0000 {
        f.Exception(Invalid);
        if !f.controlWord.masks.invalid { return false, l0, l1; }
        QuietBit(st0.sigh);
        l1 := l1 + 0x8_0000;
      }
      l1 := l1 + 0x7ff0_0000;
    } else {
      f.Exception(Invalid);
      if !f.controlWord.masks.invalid { return false, l0, l1; }
      l1 := 0xfff8_0000;
    }
    ok := true;
  }

  method StoreDouble(f: Fpu, st0: FpuReg, tag: Tag, d: array<u32>) returns (ok: bool)
    requires d.Length == 2 && (tag == Valid ==> TagOf(st0.Val()) == Valid)
    modifies f`partialStatus, d
    ensures var s := StoreDoubleSpec(f.controlWord, old(f.partialStatus), st0.Val(), tag);
      && f.partialStatus == s.sw && ok == s.image.Some?
      && (ok ==> s.image.value == Double(d[0], d[1]))
      && (!ok ==> d[..] == old(d[..]))
  {
    var l0, l1 := 0, 0;
    var kind := if tag == Special then SpecialKind(st0.Val()) else tag;
    if kind == Valid || kind == Denormal {
      ok, l0, l1 := StoreNumericDouble(f, st0, kind);
      if !ok { return; }
    } else if kind == Infinity {
      l1 := 0x7ff0_0000;
    } else if kind == NaN {
      ok, l0, l1 := StoreNaNDouble(f, st0);
      if !ok { return; }
    } else if kind == Empty {
      f.Exception(StackUnder);
      if f.controlWord.masks.invalid {
        d[0], d[1] := 0, 0xfff8_0000;
      }
      return f.controlWord.masks.invalid;
    }
    if st0.Val().Neg() && l1 < BIT31 {
      l1 := l1 + BIT31;
    }
    d[0], d[1] := l0, l1;
    ok := true;
  }

  // ----- single -----

  predicate SingleIncrement(mode: Mode, neg: bool, sigl: u32, sigh: u32) {
    match mode
    case RND => sigh % 0x100 > 0x80 || (sigh % 0x100 == 0x80 && sigl != 0) || sigh / 0x80 % 4 == 3
    case DOWN => neg && (sigl != 0 || sigh % 0x100 != 0)
    case UP => !neg && (sigl != 0 || sigh % 0x100 != 0)
    case CHOP => false
  }

  lemma SingleIncrementIsRoundMag(mode: Mode, r: Reg)
    ensures r.Sig() / 0x100_0000_0000 == r.sigh / 0x100
    ensures r.Sig() % 0x100_0000_0000 == r.sigh % 0x100 * TWO32 + r.sigl
    ensures r.sigl != 0 || r.sigh % 0x100 != 0 ==>
      RoundMag(mode, r.Neg(), r.Sig(), 0x100_0000_0000)
      == r.sigh / 0x100 + if SingleIncrement(mode, r.Neg(), r.sigl, r.sigh) then 1 else 0
    ensures r.sigl == 0 && r.sigh % 0x100 == 0 ==> RoundMag(mode, r.Neg(), r.Sig(), 0x100_0000_0000) == r.sigh / 0x100
  {
    var f, low := r.sigh / 0x100, r.sigh % 0x100 * TWO32 + r.sigl;
    DivModUnique(r.Sig(), f, low, 0x100_0000_0000);
    var a, b := r.sigh / 0x100, r.sigh % 0x100;
    var h := if b >= 0x80 then 1 else 0;
    DivModUnique(r.sigh, 2 * a + h, b - h * 0x80, 0x80);
    DivModUnique(2 * a + h, a / 2, 2 * (a % 2) + h, 4);
  }

  method RoundSingleWords(tmp: FpuReg, mode: Mode) returns (loss: bool, increment: bool, carry: bool)
    requires tmp.sigh >= BIT31
    modifies tmp`sigl, tmp`sigh
    ensures var r, n := old(tmp.Val()), RoundMag(mode, old(tmp.Val()).Neg(), old(tmp.Val()).Sig(), 0x100_0000_0000);
      && loss == (r.Sig() % 0x100_0000_0000 != 0) && increment == (n > r.Sig() / 0x100_0000_0000)
      && carry == (n == 2 * TWO23)
      && tmp.sigh % 0x100 == 0 && tmp.sigh / 0x100 == Mantissa(mode, r, 0x100_0000_0000, TWO23)
  {
    hide RoundMag;
    SingleIncrementIsRoundMag(mode, tmp.Val());
    carry, increment := false, false;
    loss := tmp.sigl != 0 || tmp.sigh % 0x100 != 0;
    if loss {
      var sigh, sigl := tmp.sigh, tmp.sigl;
      increment := SingleIncrement(mode, tmp.Val().Neg(), sigl, sigh);
      tmp.sigl := 0;
      if increment {
        if sigh >= 0xffff_ff00 {
          tmp.sigh := 0x8000_0000;
          carry := true;
        } else {
          tmp.sigh := tmp.sigh - tmp.sigh % 0x100;
          tmp.sigh := tmp.sigh + 0x100;
        }
      } else {
        tmp.sigh := tmp.sigh - tmp.sigh % 0x100;
      }
    }
  }

  method StoreNormalSingle(f: Fpu, st0: FpuReg) returns (ok: bool, templ: u32)
    requires st0.sigh >= BIT31
    modifies f`partialStatus
    ensures var s := NormalSingle(f.controlWord, old(f.partialStatus), st0.Val());
      && f.partialStatus == s.sw && ok == s.image.Some?
      && (ok ==> s.image.value == WithSign(st0.Val().Neg(), templ))
  {
    var tmp := new FpuReg(st0.Val());
    var exp := tmp.Val().Exponent();
    var loss, increment, carry := RoundSingleWords(tmp, f.controlWord.rc);
    if carry {
      exp := exp + 1;
    }
    templ := tmp.sigh / 0x100 % TWO23;
    assert templ == Mantissa(f.controlWord.rc, st0.Val(), 0x100_0000_0000, TWO23) - TWO23 by {
      MantissaRange(f.controlWord.rc, st0.Val(), 0x100_0000_0000, TWO23);
    }
    if exp > 127 {
      ok := RaiseOverflow(f);
      templ := 0x7f80_0000;
    } else {
      RaiseInexact(f, loss, increment);
      templ := templ + (exp + 127) % 0x100 * TWO23;
      ok := true;
    }
  }

  method StoreTinySingle(f: Fpu, st0: FpuReg, tmp: FpuReg, tag: Tag) returns (ok: bool, templ: u32)
    requires st0 != tmp
    modifies f`partialStatus, tmp`sigl, tmp`sigh
    ensures var s := TinySingle(f.controlWord, old(f.partialStatus), st0.Val(), old(tmp.Val()), tag);
      && f.partialStatus == s.sw && ok == s.image.Some?
      && (ok ==> s.image.value == WithSign(st0.Val().Neg(), templ))
  {
    templ := 0;
    var loss := RoundToInt(tmp, tag, f.controlWord.rc);
    Words(tmp.Val());
    if loss != Exact {
      if !(tmp.sigl == 0x0080_0000 && (st0.sigh % 0x100 != 0 || st0.sigl != 0)) {
        f.Exception(Underflow);
        if !f.controlWord.masks.underflow { return false, templ; }
      }
      RaiseLoss(f, loss);
      if !f.controlWord.masks.precision { return false, templ; }
    }
    templ := tmp.sigl;
    ok := true;
  }

  method StoreNumericSingle(f: Fpu, st0: FpuReg, kind: Tag) returns (ok: bool, templ: u32)
    requires (kind == Valid && TagOf(st0.Val()) == Valid) || kind == Denormal
    modifies f`partialStatus
    ensures var s := NumericSingle(f.controlWord, old(f.partialStatus), st0.Val(), kind);
      && f.partialStatus == s.sw && ok == s.image.Some?
      && (ok ==> s.image.value == WithSign(st0.Val().Neg(), templ))
  {
    if kind == Valid && st0.Val().Exponent() >= -126 {
      ok, templ := StoreNormalSingle(f, st0);
      return;
    }
    var tmp := new FpuReg(st0.Val());
    if kind == Valid {
      tmp.exp := tmp.exp + 149;
    }
    ok, templ := StoreTinySingle(f, st0, tmp, kind);
  }

  method StoreNaNSingle(f: Fpu, st0: FpuReg) returns (ok: bool, templ: u32)
    modifies f`partialStatus
    ensures var s := NaNSingle(f.controlWord, old(f.partialStatus), st0.Val());
      && f.partialStatus == s.sw && ok == s.image.Some?
      && (ok ==> s.image.value == WithSign(st0.Val().Neg(), templ))
  {
    templ := 0;
    if st0.Val().Exponent() == EXP_OVER && st0.sigh >= BIT31 {
      templ := st0.sigh % BIT31 / 0x100;
      if st0.sigh % BIT31 < 0x4000_0000 {
        f.Exception(Invalid);
        if !f.controlWord.masks.invalid { return false, templ; }
        templ := templ + 0x40_0000;
      }
      templ := templ + 0x7f80_0000;
    } else {
      f.Exception(Invalid);
      if !f.controlWord.masks.invalid { return false, templ; }
      templ := 0xffc0_0000;
    }
    ok := true;
  }

  method StoreSingle(f: Fpu, st0: FpuReg, tag: Tag, d: array<u32>) returns (ok: bool)
    requires d.Length == 1 && (tag == Valid ==> TagOf(st0.Val()) == Valid)
    modifies f`partialStatus, d
    ensures var s := StoreSingleSpec(f.controlWord, old(f.partialStatus), st0.Val(), tag);
      && f.partialStatus == s.sw && ok == s.image.Some?
      && (ok ==> s.image.value == d[0])
      && (!ok ==> d[..] == old(d[..]))
  {
    var templ := 0;
    var kind := if tag == Special then SpecialKind(st0.Val()) else tag;
    if kind == Valid || kind == Denormal {
      ok, templ := StoreNumericSingle(f, st0, kind);
      if !ok { return; }
    } else if kind == Infinity {
      templ := 0x7f80_0000;
    } else if kind == NaN {
      ok, templ := StoreNaNSingle(f, st0);
      if !ok { return; }
    } else if kind == Empty {
      f.Exception(StackUnder);
      if f.controlWord.masks.invalid {
        d[0] := 0xffc0_0000;
      }
      return f.controlWord.masks.invalid;
    }
    if st0.Val().Neg() && templ < BIT31 {
      templ := templ + BIT31;
    }
    d[0] := templ;
    ok := true;
  }
}
