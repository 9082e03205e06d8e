/** The integer and packed-decimal transfers of extras/x87-emu/reg_ld_str.c:
    FPU_load_int64/32/16, FPU_store_int64/32/16, FPU_load_bcd and FPU_store_bcd. */
module IntegerData {
  import opened Arith
  import opened Powers
  import opened Rounding
  import opened FpuRegs
  import opened FpuState
  import opened FpuMachine
  import opened StoreReal
  import opened StoreRealCorrect
  import opened LoadReal

  // ----- binary integers -----

  /** Two's complement with half = 2^(b - 1) for b bits: the integers of b bits, and
      what a word of b bits means. */
  predicate InRange(half: nat, v: int) { 0 - half <= v < half }

  function Signed(half: nat, w: nat): int { if w < half then w else w - 2 * half }

  function Abs(v: int): nat { if v < 0 then 0 - v else v }

  function WithNeg(neg: bool, n: nat): int { if neg then 0 - n else n }

  /** The register for an integer; only zero is not normalized. */
  function IntReg(neg: bool, mag: u64): Reg {
    if mag == 0 then MakeReg(neg, 0, 0) else Normalized(neg, 63, mag)
  }

  lemma {:induction false} LeadingZerosShifted(s: nat, g: nat)
    requires 0 < s * Pow2(g) < TWO64
    ensures s < TWO64 && LeadingZeros(s) == LeadingZeros(s * Pow2(g)) + g
  {
    MulMonoRight(s, 1, Pow2(g));
    var k := LeadingZeros(s * Pow2(g));
    ScaleFraction(s, g, k);
    LeadingZerosUnique(s, g + k);
  }

  /** A narrow integer is placed at the top of the significand with a smaller
      exponent; after normalization it makes no difference. */
  lemma NarrowIsWide(neg: bool, s: nat, g: nat)
    requires g <= 63 && 0 < s * Pow2(g) < TWO64
    ensures s < TWO64 && Normalized(neg, 63 - g, s * Pow2(g)) == Normalized(neg, 63, s)
  {
    LeadingZerosShifted(s, g);
    var k := LeadingZeros(s * Pow2(g));
    ScaleFraction(s, g, k);
    Words(Normalized(neg, 63 - g, s * Pow2(g)));
    Words(Normalized(neg, 63, s));
  }

  lemma NarrowReg(neg: bool, s: nat, g: nat, top: nat)
    requires g <= 63 && top == s * Pow2(g) && 0 < top < TWO64
    ensures s < TWO64 && Normalized(neg, 63 - g, top) == IntReg(neg, s) && TagOf(IntReg(neg, s)) == Valid
  {
    hide Pow2, LeadingZeros;
    NarrowIsWide(neg, s, g);
    if s == 0 { MulMono(0, 0, Pow2(g)); }
  }

  method LoadInt64(s: int, st0: FpuReg) returns (tag: Tag)
    requires -TWO63 <= s < TWO63
    modifies st0
    ensures st0.Val() == IntReg(s < 0, Abs(s)) && tag == TagOf(st0.Val())
  {
    if s == 0 {
      st0.Set(CONST_Z);
      return Zero;
    }
    // Negating the most negative integer gives its own bit pattern, 2^63.
    st0.SetSig(Abs(s));
    tag := NormalizeNoExcep(st0, 63, s < 0);
  }

  method LoadInt32(s: int, loaded: FpuReg) returns (tag: Tag)
    requires -BIT31 <= s < BIT31
    modifies loaded
    ensures loaded.Val() == IntReg(s < 0, Abs(s)) && tag == TagOf(loaded.Val())
  {
    if s == 0 {
      loaded.Set(CONST_Z);
      return Zero;
    }
    hide Pow2, LeadingZeros, IntReg, TagOf, Normalized;
    loaded.sigh, loaded.sigl := Abs(s), 0;
    assert Pow2(32) == TWO32 by { Pow2Values(); }
    NarrowReg(s < 0, Abs(s), 32, loaded.Val().Sig());
    tag := NormalizeNoExcep(loaded, 31, s < 0);
  }

  method LoadInt16(s: int, loaded: FpuReg) returns (tag: Tag)
    requires -0x8000 <= s < 0x8000
    modifies loaded
    ensures loaded.Val() == IntReg(s < 0, Abs(s)) && tag == TagOf(loaded.Val())
  {
    if s == 0 {
      loaded.Set(CONST_Z);
      return Zero;
    }
    hide Pow2, LeadingZeros, IntReg, TagOf, Normalized;
    loaded.sigh, loaded.sigl := Abs(s) * 0x1_0000, 0;
    assert Pow2(48) == 0x1_0000_0000_0000 by { Pow2Values(); }
    NarrowReg(s < 0, Abs(s), 48, loaded.Val().Sig());
    tag := NormalizeNoExcep(loaded, 15, s < 0);
  }

  /** FPU_store_int64, FPU_store_int32 and FPU_store_int16, for half = 2^63, 2^31 and
      2^15: the image is the stored integer. */
  function StoreIntSpec(half: nat, cw: Control, sw: Status, r: Reg, tag: Tag): Stored<int> {
    var kind := Kind(r, tag);
    if kind == Empty || kind == Infinity || kind == NaN then
      Stored(Indefinite(half, cw), Exception(cw, sw, if kind == Empty then StackUnder else Invalid))
    else
      RoundedInt(half, cw, sw, r.Neg(), RoundedSig(cw.rc, r, kind), RoundingCode(cw.rc, r, kind))
  }

  function Indefinite(half: nat, cw: Control): Option<int> {
    if cw.masks.invalid then Some(0 - half) else None
  }

  function RoundedInt(half: nat, cw: Control, sw: Status, neg: bool, n: nat, loss: Loss): Stored<int> {
    if loss == TooBig || !InRange(half, WithNeg(neg, n)) then
      Stored(Indefinite(half, cw), Exception(cw, sw, Invalid))
    else
      Stored(Some(WithNeg(neg, n)), if loss == Exact then sw else SetPrecisionFlag(cw, sw, loss == LostUp))
  }

  /** The head of all three: an empty register, an infinity or a NaN is invalid. */
  method InvalidOperand(f: Fpu, st0: FpuReg, tag: Tag) returns (bad: bool, kind: Tag)
    requires StackTag(tag)
    modifies f`partialStatus
    ensures kind == Kind(st0.Val(), tag) && bad == (kind == Empty || kind == Infinity || kind == NaN)
    ensures f.partialStatus ==
      if bad then Exception(f.controlWord, old(f.partialStatus), if kind == Empty then StackUnder else Invalid)
      else old(f.partialStatus)
  {
    bad, kind := false, tag;
    if tag == Empty {
      f.Exception(StackUnder);
      bad := true;
    } else if tag == Special {
      kind := SpecialKind(st0.Val());
      if kind == Infinity || kind == NaN {
        f.Exception(Invalid);
        bad := true;
      }
    }
  }

  method StoreInt64(f: Fpu, st0: FpuReg, tag: Tag) returns (ok: bool, tll: u64)
    requires StackTag(tag)
    modifies f`partialStatus
    ensures var s := StoreIntSpec(TWO63, f.controlWord, old(f.partialStatus), st0.Val(), tag);
      f.partialStatus == s.sw && ok == s.image.Some? && (ok ==> s.image.value == Signed(TWO63, tll))
  {
    tll := 0x8000_0000_0000_0000;
    var bad, kind := InvalidOperand(f, st0, tag);
    if bad { return f.controlWord.masks.invalid, tll; }
    var t := new FpuReg(st0.Val());
    var loss := RoundToInt(t, kind, f.controlWord.rc);
    if loss == TooBig || (t.sigh >= BIT31 && !(t.sigh == BIT31 && t.sigl == 0 && t.Val().Neg())) {
      f.Exception(Invalid);
      return f.controlWord.masks.invalid, tll;
    }
    if loss != Exact {
      f.SetPrecisionFlag(loss == LostUp);
    }
    tll := t.sigh * TWO32 + t.sigl;
    if t.Val().Neg() {
      tll := if tll == 0 then 0 else TWO64 - tll;
    }
    ok := true;
  }

  method StoreInt32(f: Fpu, st0: FpuReg, tag: Tag) returns (ok: bool, w: u32)
    requires StackTag(tag)
    modifies f`partialStatus
    ensures var s := StoreIntSpec(BIT31, f.controlWord, old(f.partialStatus), st0.Val(), tag);
      f.partialStatus == s.sw && ok == s.image.Some? && (ok ==> s.image.value == Signed(BIT31, w))
  {
    w := 0x8000_0000;
    var bad, kind := InvalidOperand(f, st0, tag);
    if bad { return f.controlWord.masks.invalid, w; }
    var t := new FpuReg(st0.Val());
    var loss := RoundToInt(t, kind, f.controlWord.rc);
    if t.sigh != 0 || (t.sigl >= BIT31 && !(t.sigl == BIT31 && t.Val().Neg())) {
      f.Exception(Invalid);
      return f.controlWord.masks.invalid, w;
    }
    if loss != Exact {
      f.SetPrecisionFlag(loss == LostUp);
    }
    w := t.sigl;
    if t.Val().Neg() {
      w := if w == 0 then 0 else TWO32 - w;
    }
    ok := true;
  }

  method StoreInt16(f: Fpu, st0: FpuReg, tag: Tag) returns (ok: bool, w: u16)
    requires StackTag(tag)
    modifies f`partialStatus
    ensures var s := StoreIntSpec(0x8000, f.controlWord, old(f.partialStatus), st0.Val(), tag);
      f.partialStatus == s.sw && ok == s.image.Some? && (ok ==> s.image.value == Signed(0x8000, w))
  {
    w := 0x8000;
    var bad, kind := InvalidOperand(f, st0, tag);
    if bad { return f.controlWord.masks.invalid, w; }
    var t := new FpuReg(st0.Val());
    var loss := RoundToInt(t, kind, f.controlWord.rc);
    if t.sigh != 0 || (t.sigl / 0x8000 != 0 && !(t.sigl == 0x8000 && t.Val().Neg())) {
      f.Exception(Invalid);
      return f.controlWord.masks.invalid, w;
    }
    if loss != Exact {
      f.SetPrecisionFlag(loss == LostUp);
    }
    w := t.sigl;
    if t.Val().Neg() {
      w := if w == 0 then 0 else 0x1_0000 - w;
    }
    ok := true;
  }

  // ----- what an integer store promises -----

  /** 1.0 in the common unit. */
  lemma MagOne(unit: nat)
    requires unit == 16508
    ensures Mag(CONST_1) == Pow2(unit)
  {
    hide Pow2, RoundMag;
    assert CONST_1.Sig() == Pow2(63) by { Pow2Values(); }
    Pow2Add(63, unit - 63);
  }

  /** A numeric register divided by 1.0 and rounded in the current mode: that integer
      is stored if it fits; otherwise the operation is invalid. */
  lemma StoreIntCorrect(half: nat, cw: Control, sw: Status, r: Reg)
    requires 1 <= half <= TWO63 && Numeric(r)
    ensures var v := WithNeg(r.Neg(), RoundMag(cw.rc, r.Neg(), Mag(r), Mag(CONST_1)));
      StoreIntSpec(half, cw, sw, r, TagOf(r)).image == if InRange(half, v) then Some(v) else Indefinite(half, cw)
  {
    hide Pow2, RoundMag;
    var unit: nat := 16508;
    MagOne(unit);
    if TagOf(r) != Valid {
      DenormalInteger(cw.rc, r, unit);
    } else if r.Exponent() <= 63 {
      ValidInteger(cw.rc, r, unit);
    } else {
      TooBigForInt(cw.rc, r, unit);
    }
  }

  lemma ValidInteger(mode: Mode, r: Reg, unit: nat)
    requires TagOf(r) == Valid && r.Exponent() <= 63 && unit == 16508
    ensures RoundMag(mode, r.Neg(), Mag(r), Pow2(unit)) == RoundedSig(mode, r, Valid)
  {
    MagValid(r);
    var a := r.Exponent() + 16445;
    Pow2Add(unit - a, a);
    RoundMagScale(mode, r.Neg(), r.Sig(), Pow2(unit - a), Pow2(a));
  }

  lemma DenormalInteger(mode: Mode, r: Reg, unit: nat)
    requires r.Field() == 0 && unit == 16508
    ensures RoundMag(mode, r.Neg(), Mag(r), Pow2(unit)) == RoundedSig(mode, r, Denormal)
    ensures RoundingCode(mode, r, Denormal) != TooBig
  {
    hide Pow2, RoundMag;
    TinyShift(mode, r.Neg(), r.Sig(), 63 - r.Exponent());
    RoundAtUnit(mode, r.Neg(), r.Sig(), unit, 63);
  }

  lemma RoundAtUnit(mode: Mode, neg: bool, s: u64, unit: nat, a: nat)
    requires a + 65 <= unit
    ensures RoundMag(mode, neg, s * Pow2(a), Pow2(unit)) == if Away(mode, neg) && s > 0 then 1 else 0
  {
    hide Pow2, RoundMag;
    TinyShift(mode, neg, s, unit - a);
    Pow2Add(unit - a, a);
    RoundMagScale(mode, neg, s, Pow2(unit - a), Pow2(a));
  }

  /** With an exponent above 63 the number is at least 2^64. */
  lemma TooBigForInt(mode: Mode, r: Reg, unit: nat)
    requires TagOf(r) == Valid && r.Exponent() > 63 && unit == 16508
    ensures RoundMag(mode, r.Neg(), Mag(r), Pow2(unit)) >= TWO64
  {
    hide Pow2, RoundMag;
    MagValid(r);
    var s, a := r.Sig(), r.Exponent() + 16445;
    assert s >= Pow2(63) && Pow2(64) == TWO64 by { Pow2Values(); }
    MulMono(Pow2(63), s, Pow2(a));
    Pow2Add(63, a); Pow2Add(64, unit); Pow2Mono(64 + unit, 63 + a);
    FloorAtLeast(Mag(r), Pow2(64), Pow2(unit));
    RoundMagNear(mode, r.Neg(), Mag(r), Pow2(unit));
  }

  /** Loading an integer and storing it again gives it back in every mode, without
      raising anything; also the most negative one. */
  lemma IntRoundTrip(half: nat, cw: Control, sw: Status, v: int)
    requires 1 <= half <= TWO63 && InRange(half, v)
    ensures Abs(v) < TWO64
    ensures var r := IntReg(v < 0, Abs(v)); StoreIntSpec(half, cw, sw, r, TagOf(r)) == Stored(Some(v), sw)
  {
    hide Pow2, RoundMag, LeadingZeros, Exception;
    var s, r := Abs(v), IntReg(v < 0, Abs(v));
    Words(r);
    if s != 0 {
      RoundMagExact(cw.rc, r.Neg(), s, Pow2(LeadingZeros(s)));
    }
  }
}
