/** do_fprem of extras/x87-emu/fpu_trig.c as the emulator runs it, on local copies of
    the two registers and then on st(0). */
module FpremCode {
  import opened Arith
  import opened Powers
  import opened Rounding
  import opened FpuRegs
  import opened FpuState
  import opened FpuMachine
  import opened Compare
  import opened StackOps
  import opened StackRuns
  import opened StackCode
  import opened Fprem
  import opened FpremExact

  /** FPU_u_div (reg_u_div.S), chopping to 64 bits: what it leaves in tmp. */
  method FpuUDiv(st0: FpuReg, st1: FpuReg, tmp: FpuReg, n: int, neg: bool)
    requires st0.Val().Sig() >= TWO63 && st1.Val().Sig() >= TWO63 && -1 <= n <= 63
    requires tmp != st1
    modifies tmp
    ensures var d := UDiv(old(st0.Val()).Sig(), st1.Val().Sig(), n);
      && tmp.Val().Sig() == d.sig && tmp.Val().Exponent() == d.e && tmp.Val().Neg() == neg
  {
    var d := UDiv(st0.Val().Sig(), st1.Val().Sig(), n);
    UDivNormal(st0.Val().Sig(), st1.Val().Sig(), n);
    tmp.Set(MakeReg(neg, d.e + EXTENDED_Ebias, d.sig));
  }

  lemma ChopIsFloor(r: Reg)
    requires r.Exponent() <= 63
    ensures RoundedSig(CHOP, r, Valid) == r.Sig() / Pow2(63 - r.Exponent())
  {
  }

  /** The quotient and the exact remainder. */
  method ReduceCode(st0: FpuReg, st1: FpuReg, tmp: FpuReg, n: int, neg: bool, rc: Mode) returns (q: u64)
    requires st0.Val().Sig() >= TWO63 && st1.Val().Sig() >= TWO63 && -1 <= n <= 63 && rc == CHOP
    requires tmp != st0 && tmp != st1
    modifies tmp
    ensures var r := Reduce(st0.Val().Sig(), st1.Val().Sig(), n);
      && tmp.Val().Sig() == r.t && q == r.q && !r.flip
      && tmp.exp == (if UDiv(st0.Val().Sig(), st1.Val().Sig(), n).e >= 0 then st1.exp else st0.exp)
  {
    hide Pow2, UDiv, RoundMag, RoundedSig, RoundingCode;
    FpuUDiv(st0, st1, tmp, n, neg);
    UDivNormal(st0.Val().Sig(), st1.Val().Sig(), n);
    if tmp.Val().Exponent() >= 0 {
      ChopIsFloor(tmp.Val());
      var _ := RoundToInt(tmp, Valid, rc);
      q := tmp.Val().Sig();
      RemKernel(st0.Val().Sig(), tmp, st1.Val().Sig(), q, n);
      tmp.exp := st1.exp;
    } else {
      tmp.Set(st0.Val());
      q := 0;
    }
  }

  /** The 64-bit distance to the next multiple, from the exponents of the two. */
  method NextDistance(st1: FpuReg, tmp: FpuReg) returns (x: u64)
    requires 0 <= st1.Val().Exponent16() - tmp.Val().Exponent16() <= 1
    ensures x == if st1.Val().Exponent16() == tmp.Val().Exponent16() then (st1.Val().Sig() - tmp.Val().Sig()) % TWO64
                 else (st1.Val().Sig() * 2 % TWO64 - tmp.Val().Sig()) % TWO64
  {
    var expdif := st1.Val().Exponent16() - tmp.Val().Exponent16();
    if expdif == 0 {
      x := (st1.Val().Sig() - tmp.Val().Sig()) % TWO64;
    } else {
      x := (st1.Val().Sig() * 2 % TWO64 - tmp.Val().Sig()) % TWO64;
    }
  }

  lemma LeadingTwoBits(r: Reg)
    ensures r.sigh >= 0x4000_0000 <==> r.Sig() >= 0x4000_0000_0000_0000
  {
  }

  /** Subtract st(1) once more if that gets nearer. */
  method NearerCode(st1: FpuReg, tmp: FpuReg, ghost r: Reduced, q: nat) returns (q': nat, flip: bool)
    requires st1.Val().Sig() >= TWO63 && tmp != st1
    requires tmp.Val().Sig() == r.t && q == r.q && !r.flip && -1 <= r.e <= 0
    requires tmp.Val().Exponent16() == st1.Val().Exponent16() + r.e
    modifies tmp`sigl, tmp`sigh
    ensures var r' := Nearer(st1.Val().Sig(), r);
      tmp.Val().Sig() == r'.t && q' == r'.q && flip == r'.flip && r'.e == r.e
  {
    q', flip := q, false;
    LeadingTwoBits(tmp.Val());
    if tmp.sigh >= 0x4000_0000 {
      var x := NextDistance(st1, tmp);
      if x < tmp.Val().Sig() || (x == tmp.Val().Sig() && q % 2 == 1) {
        tmp.SetSig(x);
        q', flip := q + 1, true;
      }
    }
  }

  // ----- the end -----

  lemma Exponents(e: int, n: nat)
    requires -16446 <= e < EXP_OVER && n <= 63
    ensures var w: u16 := (e % 0x1_0000 - n) % 0x1_0000;
      && w == (e - n) % 0x1_0000
      && (w >= 0x8000 <==> e - n < 0)
      && (if w >= 0x8000 then w - 0x1_0000 else w) == e - n
  {
    ModSubRight(e, n, 0x1_0000);
    if e - n < 0 {
      DivModUnique(e - n, -1, e - n + 0x1_0000, 0x1_0000);
    } else {
      ModSmall(e - n, 0x1_0000);
    }
  }

  /** FPU_normalize_nuo on a number. */
  method NormalizeNumber(tmp: FpuReg, ghost e: int)
    requires tmp.Val().Sig() != 0 && -16446 <= e < EXP_OVER && tmp.exp == e % 0x1_0000
    modifies tmp
    ensures var t := old(tmp.Val()).Sig();
      tmp.Val().Sig() == t * Pow2(LeadingZeros(t)) && tmp.Val().Exponent16() == NormalizedExponent(t, e)
  {
    Exponents(e, LeadingZeros(tmp.Val().Sig()));
    var _ := NormalizeNuo(tmp);
  }

  /** stdexp or addexponent, with what is added, and setsign. */
  method Rebias(tmp: FpuReg, up: int, neg: bool)
    requires 0 <= tmp.Val().Exponent16() + up < 0x8000
    modifies tmp`exp
    ensures tmp.Val() == MakeReg(neg, old(tmp.Val()).Exponent16() + up, tmp.Val().Sig())
  {
    RebiasedExponent(tmp.exp, up);
    tmp.exp := (tmp.exp + up) % 0x1_0000;
    if neg {
      tmp.exp := tmp.exp + 0x8000;
    }
    Words(tmp.Val());
  }

  lemma RebiasedExponent(exp: u16, up: int)
    requires 0 <= (if exp >= 0x8000 then exp - 0x1_0000 else exp) + up < 0x8000
    ensures (exp + up) % 0x1_0000 == (if exp >= 0x8000 then exp - 0x1_0000 else exp) + up
  {
    if exp >= 0x8000 {
      DivModUnique(exp + up, 1, exp - 0x1_0000 + up, 0x1_0000);
    } else {
      ModSmall(exp + up, 0x1_0000);
    }
  }

  /** FPU_round (reg_round.S) for a denormal result that loses no bits: the shift into
      place, the exponent of a denormal, and the sign. */
  method ShiftDenormal(tmp: FpuReg, neg: bool)
    requires tmp.Val().Exponent16() <= EXP_UNDER
    modifies tmp
    ensures var t := old(tmp.Val()); tmp.Val() == MakeReg(neg, 0, ShiftRight(t.Sig(), EXP_UNDER + 1 - t.Exponent16()))
  {
    var _ := Shrxs(tmp, EXP_UNDER + 1 - tmp.Val().Exponent16());
    tmp.exp := if neg then 0x8000 else 0;
    Words(tmp.Val());
  }

  /** From the label after the remainder on: normalise, pack, and set st(0). */
  method FinishCode(f: Fpu, tmp: FpuReg, ghost e: int, neg: bool, codes: Status)
    requires f.Valid() && -16446 <= e < EXP_OVER && tmp.exp == e % 0x1_0000
    modifies f`partialStatus, f`tagWord, f.regs, tmp
    ensures var s := old(f.S());
      var x := Finish(s.cw, codes, old(tmp.Val()).Sig(), e, neg);
      f.S() == s.(sw := x.sw).Put(0, x.r, x.tag)
  {
    hide Pow2, LeadingZeros, ShiftRight, MakeReg, Exception, GetTag, SetTag;
    f.partialStatus := codes;
    if tmp.Val().Sig() == 0 {
      var _ := NormalizeNuo(tmp);
      Rebias(tmp, EXTENDED_Ebias, neg);
      f.CopyToReg(tmp.Val(), Zero, 0);
      return;
    }
    NormalizeNumber(tmp, e);
    var exp := tmp.Val().Exponent16();
    if exp <= EXP_UNDER && !f.controlWord.masks.underflow {
      Rebias(tmp, MAGIC + EXTENDED_Ebias, neg);
      f.Exception(Underflow);
      f.CopyToReg(tmp.Val(), Valid, 0);
    } else if exp > EXP_UNDER {
      Rebias(tmp, EXTENDED_Ebias, neg);
      f.CopyToReg(tmp.Val(), Valid, 0);
    } else {
      ShiftDenormal(tmp, neg);
      f.CopyToReg(tmp.Val(), Special, 0);
    }
  }

  // ----- do_fprem -----

  /** The remainder of the local copies, left in tmp; the control word chops
      meanwhile. */
  method Reduction(f: Fpu, st0: FpuReg, st1: FpuReg, tmp: FpuReg, expdif: int, neg: bool, nearest: bool)
      returns (q: nat, flip: bool, ghost r: Reduced)
    requires f.Valid() && tmp != st0 && tmp != st1
    requires st0.Val().Sig() >= TWO63 && st1.Val().Sig() >= TWO63
    requires expdif == st0.Val().Exponent16() - st1.Val().Exponent16() && -1 <= expdif <= 63
    modifies f`controlWord, tmp
    ensures f.S() == old(f.S())
    ensures r == (var r0 := Reduce(st0.Val().Sig(), st1.Val().Sig(), expdif);
                  if nearest then Nearer(st1.Val().Sig(), r0) else r0)
    ensures q == r.q && flip == r.flip && -1 <= r.e <= 0
    ensures tmp.Val().Sig() == r.t && tmp.exp == (st1.Val().Exponent16() + r.e) % 0x1_0000
  {
    hide Pow2, Finish, Pack, UDiv, Reduce, Nearer;
    var oldCw := f.controlWord;
    f.controlWord := f.controlWord.(rc := CHOP);
    q := ReduceCode(st0, st1, tmp, expdif, neg, f.controlWord.rc);
    r := Reduce(st0.Val().Sig(), st1.Val().Sig(), expdif);
    ReducedExponent(st0.Val(), st1.Val(), expdif);
    flip := false;
    if nearest {
      SameExponent16(tmp.exp, if r.e == 0 then st1.exp else st0.exp);
      q, flip := NearerCode(st1, tmp, r, q);
      r := Nearer(st1.Val().Sig(), r);
    }
    f.controlWord := oldCw;
  }

  lemma SameExponent16(a: u16, b: u16)
    ensures a == b ==> Reg(0, 0, a).Exponent16() == Reg(0, 0, b).Exponent16()
  {
  }

  lemma ReducedExponent(st0: Reg, st1: Reg, n: int)
    requires st0.Sig() >= TWO63 && st1.Sig() >= TWO63 && -1 <= n <= 63
    requires n == st0.Exponent16() - st1.Exponent16()
    ensures var d, r := UDiv(st0.Sig(), st1.Sig(), n), Reduce(st0.Sig(), st1.Sig(), n);
      && -1 <= r.e <= 0
      && (if d.e >= 0 then st1.exp else st0.exp) == (st1.Exponent16() + r.e) % 0x1_0000
      && (if d.e >= 0 then st1 else st0).Exponent16() == st1.Exponent16() + r.e
  {
  }

  /** Reduction, for the registers x and y that st0 and st1 are copies of. */
  method RemainderCode(f: Fpu, st0: FpuReg, st1: FpuReg, x: Reg, y: Reg, expdif: int, nearest: bool)
      returns (tmp: FpuReg, q: nat, flip: bool, ghost r: Reduced)
    requires f.Valid() && Numeric(x) && Numeric(y) && -1 <= Difference16(x, y) <= 63
    requires st0.Val() == ToExp16(x) && st1.Val() == ToExp16(y) && expdif == Difference16(x, y)
    modifies f`controlWord
    ensures f.S() == old(f.S()) && fresh(tmp)
    ensures r == Remainder(x, y, nearest) && q == r.q && flip == r.flip
    ensures tmp.Val().Sig() == r.t && tmp.exp == (ToExp16(y).Exponent16() + r.e) % 0x1_0000
  {
    hide Pow2, Finish, Pack, UDiv, Reduce, Nearer;
    ToExp16Keeps(x);
    ToExp16Keeps(y);
    tmp := new FpuReg(CONST_Z);
    q, flip, r := Reduction(f, st0, st1, tmp, expdif, x.Neg() != y.Neg(), nearest);
  }

  /** FinishCode for a remainder, with the divisor's exponent e. */
  method PackCode(f: Fpu, tmp: FpuReg, ghost r: Reduced, ghost e: int, neg: bool, q: nat)
    requires f.Valid() && -16445 <= e < EXP_OVER && -1 <= r.e <= 0 && q == r.q
    requires tmp.Val().Sig() == r.t && tmp.exp == (e + r.e) % 0x1_0000 && neg == (f.St(0).Neg() != r.flip)
    modifies f`partialStatus, f`tagWord, f.regs, tmp
    ensures f.S() == Pack(old(f.S()), r, e)
  {
    hide Pow2, Finish;
    FinishCode(f, tmp, e + r.e, neg, QuotientBits(f.partialStatus, q));
  }

  method FpremNear(f: Fpu, st0: FpuReg, st1: FpuReg, sign: bool, expdif: int, nearest: bool)
    requires f.Valid() && Numbers(f.S()) && -1 <= Difference16(f.St(0), f.St(1)) < 64
    requires st0.Val() == ToExp16(f.St(0)) && st1.Val() == ToExp16(f.St(1)) && expdif == Difference16(f.St(0), f.St(1))
    requires sign == f.St(0).Neg()
    modifies f`controlWord, f`partialStatus, f`tagWord, f.regs
    ensures f.S() == FpremNumbers(old(f.S()), nearest)
  {
    hide Pow2, Finish, Pack, UDiv, Reduce, Nearer;
    NearState(f.S(), nearest);
    ghost var e := ToExp16(f.St(1)).Exponent16();
    var tmp, q, flip, r := RemainderCode(f, st0, st1, f.St(0), f.St(1), expdif, nearest);
    PackCode(f, tmp, r, e, sign != flip, q);
  }

  // ----- exponent differences of 64 and more -----

  /** One step of the reduction, left in tmp: rem_kernel gets the exponent of the
      quotient. */
  method StepCode(st0: FpuReg, st1: FpuReg, tmp: FpuReg, n: nat, neg: bool, rc: Mode)
    requires st0.Val().Sig() >= TWO63 && st1.Val().Sig() >= TWO63 && 32 <= n <= 63 && rc == CHOP
    requires tmp != st0 && tmp != st1 && tmp.Val().Sig() == st0.Val().Sig()
    modifies tmp
    ensures tmp.Val().Sig() == Partial(st0.Val().Sig(), st1.Val().Sig(), n)
  {
    hide Pow2, UDiv, RoundMag, RoundedSig, RoundingCode;
    UDivNormal(st0.Val().Sig(), st1.Val().Sig(), n);
    FpuUDiv(tmp, st1, tmp, n, neg);
    ChopIsFloor(tmp.Val());
    var exp := tmp.Val().Exponent();
    var _ := RoundToInt(tmp, Valid, rc);
    RemKernel(st0.Val().Sig(), tmp, st1.Val().Sig(), tmp.Val().Sig(), exp);
  }

  method FpremFar(f: Fpu, st0: FpuReg, st1: FpuReg, sign: bool, expdif: int)
    requires f.Valid() && Numbers(f.S()) && Difference16(f.St(0), f.St(1)) >= 64
    requires st0.Val() == ToExp16(f.St(0)) && st1.Val() == ToExp16(f.St(1)) && expdif == Difference16(f.St(0), f.St(1))
    requires sign == f.St(0).Neg()
    modifies f`controlWord, f`partialStatus, f`tagWord, f.regs
    ensures f.S() == PackPartial(old(f.S()))
  {
    hide Pow2, Finish, Partial, ToExp16, GetTag, SetTag;
    ghost var e := PartialExponent(f.St(0), f.St(1));
    ToExp16Keeps(f.St(0));
    ToExp16Keeps(f.St(1));
    var oldCw := f.controlWord;
    f.controlWord := f.controlWord.(rc := CHOP);
    var n := StepSize(expdif);
    var tmp := new FpuReg(st0.Val());
    StepCode(st0, st1, tmp, n, sign != f.St(1).Neg(), f.controlWord.rc);
    tmp.exp := (st1.Val().Exponent16() + expdif - n) % 0x1_0000;
    f.controlWord := oldCw;
    if tmp.Val().Sig() == 0 {
      f.CopyToReg(CONST_Z, Zero, 0);
      f.partialStatus := Unfinished(f.partialStatus);
      return;
    }
    FinishCode(f, tmp, e, sign, Unfinished(f.partialStatus));
  }

  /** The part from the label fprem_valid on. */
  method FpremValid(f: Fpu, nearest: bool)
    requires f.Valid() && Numbers(f.S())
    modifies f`controlWord, f`partialStatus, f`tagWord, f.regs
    ensures f.S() == FpremNumbers(old(f.S()), nearest)
  {
    var st0 := new FpuReg(CONST_Z);
    var st1 := new FpuReg(CONST_Z);
    var sign := FpuToExp16(f.St(0), st0);
    var _ := FpuToExp16(f.St(1), st1);
    var expdif := st0.Val().Exponent16() - st1.Val().Exponent16();
    if expdif >= 64 {
      FpremFar(f, st0, st1, sign, expdif);
    } else if expdif > -2 {
      FpremNear(f, st0, st1, sign, expdif, nearest);
    } else {
      f.partialStatus := SetCC(f.partialStatus, false, false, false, false);
    }
  }

  method ArithInvalidCode(f: Fpu)
    requires f.Valid()
    modifies f`partialStatus, f`tagWord, f.regs
    ensures f.S() == ArithInvalid(old(f.S()))
  {
    f.Exception(Invalid);
    if f.controlWord.masks.invalid {
      f.CopyToReg(CONST_QNaN, Special, 0);
    }
  }

  method NoConditionsCode(f: Fpu)
    requires f.Valid()
    modifies f`partialStatus
    ensures f.S() == NoConditions(old(f.S()))
  {
    f.partialStatus := SetCC(f.partialStatus, false, false, false, false);
  }

  /** denormal_operand, on the whole state. */
  method ReportDenormal(f: Fpu) returns (unmasked: bool)
    requires f.Valid()
    modifies f`partialStatus
    ensures f.S() == AfterDenormal(old(f.S()), true) && unmasked == !f.controlWord.masks.denormOp
  {
    unmasked := f.DenormalOperand();
  }

  lemma KindOfTag(s: State, i: int)
    requires Inv(s) && s.Tagi(i) != Empty
    ensures var k := Kind(s.St(i), s.Tagi(i));
      && (k == Valid || k == Denormal <==> Numeric(s.St(i)))
      && (k == NaN <==> IsNaN(s.St(i)))
      && k != Empty && k != Special
  {
    TagTrue(s, i);
  }

  // ----- NaNs -----

  /** real_2op_NaN with st(1) as the other operand and as the default, and st(0) as the
      destination. */
  method RealTwoOpNaN(f: Fpu, nanA: bool, nanB: bool)
    requires f.Valid() && nanA == IsNaN(f.St(0)) && nanB == IsNaN(f.St(1)) && (nanA || nanB)
    modifies f`partialStatus, f`tagWord, f.regs
    ensures f.S() == TwoOpNaN(old(f.S()))
  {
    hide GetTag, SetTag, Exception, IsNaN;
    var a, b := f.St(0), f.St(1);
    var masked := f.controlWord.masks.invalid;
    if (nanA && Unsupported(a)) || (nanB && Unsupported(b)) {
      if masked { f.CopyToReg(CONST_QNaN, Special, 0); }
      f.Exception(Invalid);
      return;
    }
    var x, signalling := a, !QuietBitSet(a);
    if nanA && nanB {
      signalling := !(QuietBitSet(a) && QuietBitSet(b));
      if b.Sig() > a.Sig() { x := b; } else if b.Sig() == a.Sig() { x := b; }
    } else if nanB {
      x, signalling := b, !QuietBitSet(b);
    }
    if !signalling {
      f.CopyToReg(x, Special, 0);
      return;
    }
    if masked { f.CopyToReg(WithQuietBit(x), Special, 0); }
    f.Exception(Invalid);
  }

  /** do_fprem */
  method DoFprem(f: Fpu, nearest: bool)
    requires f.Valid() && Inv(f.S())
    modifies f`controlWord, f`partialStatus, f`tagWord, f.regs
    ensures f.S() == DoFpremSpec(old(f.S()), nearest)
  {
    hide FpremNumbers, StackUnderflow, Numeric, Difference16, Kind, IsNaN, TagOf, GetTag, TagsTrue, TwoOpNaN;
    var k0, k1 := Kind(f.St(0), f.GetTagi(0)), Kind(f.St(1), f.GetTagi(1));
    if f.GetTagi(0) == Empty || f.GetTagi(1) == Empty {
      FpuStackUnderflow(f, 0);
      return;
    }
    KindOfTag(f.S(), 0);
    KindOfTag(f.S(), 1);
    if k0 == Valid && k1 == Valid {
      FpremValid(f, nearest);
    } else if (k0 == Valid || k0 == Denormal) && (k1 == Valid || k1 == Denormal) {
      var unmasked := ReportDenormal(f);
      if unmasked { return; }
      FpremValid(f, nearest);
    } else {
      FpremSpecial(f, k0, k1, nearest);
    }
  }

  /** A zero, an infinity or a NaN among the operands. */
  method FpremSpecial(f: Fpu, k0: Tag, k1: Tag, ghost nearest: bool)
    requires f.Valid() && Inv(f.S()) && f.S().Tagi(0) != Empty && f.S().Tagi(1) != Empty
    requires k0 == Kind(f.St(0), f.GetTagi(0)) && k1 == Kind(f.St(1), f.GetTagi(1)) && !Numbers(f.S())
    modifies f`partialStatus, f`tagWord, f.regs
    ensures f.S() == DoFpremSpec(old(f.S()), nearest)
  {
    KindOfTag(f.S(), 0);
    KindOfTag(f.S(), 1);
    if k0 == Zero {
      if k1 == Zero {
        ArithInvalidCode(f);
        return;
      } else if k1 != NaN {
        if k1 == Denormal {
          var unmasked := ReportDenormal(f);
          if unmasked { return; }
        }
        NoConditionsCode(f);
        return;
      }
    } else if k0 == Valid || k0 == Denormal {
      if k1 == Zero {
        ArithInvalidCode(f);
        return;
      } else if k1 != NaN {
        if k0 == Denormal || k1 == Denormal {
          var unmasked := ReportDenormal(f);
          if unmasked { return; }
        }
        NoConditionsCode(f);
        return;
      }
    } else if k0 == Infinity && k1 != NaN {
      ArithInvalidCode(f);
      return;
    }
    RealTwoOpNaN(f, k0 == NaN, k1 == NaN);
  }
}
