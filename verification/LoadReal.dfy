/** FPU_load_double and FPU_load_single of extras/x87-emu/reg_ld_str.c: the code, what
    the loaded register means, and that storing it again gives the same bits. */
module LoadReal {
  import opened Arith
  import opened Powers
  import opened Rounding
  import opened FpuRegs
  import opened FpuState
  import opened FpuMachine
  import opened StoreReal
  import opened StoreRealCorrect

  /** A nonzero number: the significand s shifted up to bit 63, with the exponent
      that keeps s * 2^(e - 63). */
  function Normalized(neg: bool, e: int, s: u64): (r: Reg)
    requires s != 0 && -16319 <= e <= 16383
    ensures r.Neg() == neg && r.Sig() == s * Pow2(LeadingZeros(s)) && r.Exponent() == e - LeadingZeros(s)
    ensures TagOf(r) == Valid
  {
    var r := MakeReg(neg, e - LeadingZeros(s) + EXTENDED_Ebias, s * Pow2(LeadingZeros(s)));
    Words(r);
    r
  }

  /** normalize_no_excep */
  method NormalizeNoExcep(r: FpuReg, exp: int, neg: bool) returns (tag: Tag)
    requires r.Val().Sig() != 0 && -16319 <= exp <= 16383
    modifies r
    ensures tag == Valid && r.Val() == Normalized(neg, exp, old(r.Val()).Sig())
  {
    hide Pow2, LeadingZeros;
    ghost var s := r.Val().Sig();
    var k := LeadingZeros(s);
    r.exp := exp % 0x1_0000;
    tag := NormalizeNuo(r);
    assert r.exp == (exp - k) % 0x1_0000 by { ModSubRight(exp, k, 0x1_0000); }
    r.exp := (r.exp + EXTENDED_Ebias) % 0x1_0000;
    assert r.exp == exp - k + EXTENDED_Ebias by {
      ModAddLeft(exp - k, EXTENDED_Ebias, 0x1_0000);
      ModSmall(exp - k + EXTENDED_Ebias, 0x1_0000);
    }
    if neg {
      r.exp := r.exp + 0x8000;
    }
    Words(r.Val());
    Words(Normalized(neg, exp, s));
  }

  // ----- doubles -----

  predicate DoubleNeg(d: Double) { d.hi >= BIT31 }

  predicate DoubleDenormal(d: Double) { DoubleExp(d) == 0 && DoubleFrac(d) != 0 }

  function LoadDoubleSpec(d: Double): Reg {
    var neg, be, m := DoubleNeg(d), DoubleExp(d), DoubleFrac(d);
    if be == 0x7ff then MakeReg(neg, 0x7fff, TWO63 + m * 0x800)
    else if be == 0 && m == 0 then MakeReg(neg, 0, 0)
    else if be == 0 then Normalized(neg, -1022, m * 0x800)
    else MakeReg(neg, be + 0x3c00, TWO63 + m * 0x800)
  }

  /** (m64 << 11) | (l64 >> 21) and l64 << 11 hold the fraction times 2^11. */
  lemma FractionWords(m64: nat, l64: u32)
    requires m64 < 0x10_0000
    ensures (m64 * 0x800 + l64 / 0x20_0000) * TWO32 + l64 * 0x800 % TWO32 == (m64 * TWO32 + l64) * 0x800
  {
    DivModUnique(l64 * 0x800, l64 / 0x20_0000, l64 % 0x20_0000 * 0x800, TWO32);
  }

  method LoadDouble(f: Fpu, m64: u32, l64: u32, loaded: FpuReg) returns (tag: Tag)
    modifies loaded, f`partialStatus
    ensures var d := Double(l64, m64);
      && loaded.Val() == LoadDoubleSpec(d) && tag == TagOf(loaded.Val())
      && f.partialStatus == if DoubleDenormal(d) then DenormalOperand(f.controlWord, old(f.partialStatus))
                            else old(f.partialStatus)
  {
    ghost var d := Double(l64, m64);
    var negative := m64 >= BIT31;
    var exp := m64 / 0x10_0000 % 0x800 - 1023 + EXTENDED_Ebias;
    var frac := m64 % 0x10_0000;
    FractionWords(frac, l64);
    if exp > 1023 + EXTENDED_Ebias {
      if frac == 0 && l64 == 0 {
        loaded.sigh, loaded.sigl := 0x8000_0000, 0;
      } else {
        loaded.sigh := frac * 0x800 + 0x8000_0000 + l64 / 0x20_0000;
        loaded.sigl := l64 * 0x800 % TWO32;
      }
      exp := EXP_OVER + EXTENDED_Ebias;
      tag := Special;
    } else if exp < -1022 + EXTENDED_Ebias {
      if frac == 0 && l64 == 0 {
        loaded.Set(CONST_Z);
        exp := 0;
        tag := Zero;
      } else {
        loaded.sigh := frac * 0x800 + l64 / 0x20_0000;
        loaded.sigl := l64 * 0x800 % TWO32;
        assert loaded.Val().Sig() == DoubleFrac(d) * 0x800;
        tag := NormalizeNoExcep(loaded, -1022, negative);
        var _ := f.DenormalOperand();
        return;
      }
    } else {
      loaded.sigh := frac * 0x800 + 0x8000_0000 + l64 / 0x20_0000;
      loaded.sigl := l64 * 0x800 % TWO32;
      tag := Valid;
    }
    loaded.exp := exp + if negative then 0x8000 else 0;
    assert loaded.Val().Sig() == LoadDoubleSpec(d).Sig() && loaded.Val().exp == LoadDoubleSpec(d).exp;
    Words(loaded.Val());
    Words(LoadDoubleSpec(d));
  }

  /** The loaded register has the sign and exactly the value of the double. */
  lemma LoadDoubleExact(d: Double)
    requires DoubleExp(d) != 0x7ff
    ensures var r := LoadDoubleSpec(d);
      r.Neg() == DoubleNeg(d) && Mag(r) == DoubleMag(d) && (TagOf(r) == Zero || TagOf(r) == Valid)
  {
    var r, m, be := LoadDoubleSpec(d), DoubleFrac(d), DoubleExp(d);
    Words(r);
    assert Pow2(11) == 0x800 && Pow2(52) == TWO52 by { Pow2Values(); }
    PackUnpackDouble(d);
    if be == 0 && m != 0 {
      NormalizedMag(DoubleNeg(d), -1022, m * 0x800);
      ScaleFraction(m, 11, 15423);
    } else if be != 0 {
      NormalLoadMag(53, DOUBLE_KMIN, r, m, be);
    }
  }

  lemma NormalLoadMag(p: nat, kmin: nat, r: Reg, m: nat, be: nat)
    requires 1 <= p <= 64 && be >= 1 && r.Field() >= 1
    requires r.Sig() == (Pow2(p - 1) + m) * Pow2(64 - p)
    requires 64 - p + r.Field() + 62 == be - 1 + kmin
    ensures Mag(r) == BinaryMag(p, kmin, be, m)
  {
    ScaleFraction(Pow2(p - 1) + m, 64 - p, r.Field() + 62);
  }

  lemma NormalizedMag(neg: bool, e: int, s: u64)
    requires s != 0 && -16319 <= e <= 16383
    ensures Mag(Normalized(neg, e, s)) == MagOf(s, e)
  {
    var k := LeadingZeros(s);
    MagValid(Normalized(neg, e, s));
    Pow2Add(k, e - k + 16445);
    MulAssoc(s, Pow2(k), Pow2(e - k + 16445));
  }

  lemma ScaleFraction(m: nat, g: nat, k: nat)
    ensures m * Pow2(g) * Pow2(k) == m * Pow2(g + k)
  {
    Pow2Add(g, k);
    MulAssoc(m, Pow2(g), Pow2(k));
  }

  lemma PackUnpackDouble(d: Double)
    ensures DoubleFrac(d) < TWO52 && PackDouble(DoubleNeg(d), DoubleFrac(d), DoubleExp(d)) == d
  {
    var h := d.hi % 0x10_0000;
    DivModUnique(DoubleFrac(d), h, d.lo, TWO32);
    var t := d.hi / 0x10_0000;
    assert d.hi == t * 0x10_0000 + h && t == t / 0x800 * 0x800 + t % 0x800;
  }

  predicate SignallingDouble(d: Double) {
    DoubleExp(d) == 0x7ff && 0 < DoubleFrac(d) < TWO52 / 2
  }

  /** Loading a double and storing it again gives the same two words in every
      rounding mode and under every mask, and raises nothing, unless it is a
      signalling NaN. */
  lemma DoubleRoundTrip(cw: Control, sw: Status, d: Double)
    requires !SignallingDouble(d)
    ensures var r := LoadDoubleSpec(d); StoreDoubleSpec(cw, sw, r, TagOf(r)) == Stored(Some(d), sw)
  {
    PackUnpackDouble(d);
    if DoubleExp(d) == 0x7ff {
      SpecialDoubleRoundTrip(cw, sw, d);
    } else if DoubleExp(d) == 0 && DoubleFrac(d) == 0 {
      Words(LoadDoubleSpec(d));
    } else if DoubleExp(d) == 0 {
      DenormalDoubleRoundTrip(cw, sw, d);
    } else {
      NormalDoubleRoundTrip(cw, sw, d);
    }
  }

  lemma NormalDoubleRoundTrip(cw: Control, sw: Status, d: Double)
    requires 0 < DoubleExp(d) < 0x7ff
    ensures var r := LoadDoubleSpec(d);
      TagOf(r) == Valid && StoreDoubleSpec(cw, sw, r, Valid) == Stored(Some(d), sw)
  {
    PackUnpackDouble(d);
    var r, m := LoadDoubleSpec(d), DoubleFrac(d);
    Words(r);
    assert r.Sig() == (TWO52 + m) * 0x800;
    RoundMagExact(cw.rc, r.Neg(), TWO52 + m, 0x800);
    assert Mantissa(cw.rc, r, 0x800, TWO52) == TWO52 + m && RoundedExponent(cw.rc, r, 0x800, TWO52) == r.Exponent();
    ModSmall(DoubleExp(d), 0x800);
  }

  lemma DenormalDoubleRoundTrip(cw: Control, sw: Status, d: Double)
    requires DoubleDenormal(d)
    ensures var r := LoadDoubleSpec(d);
      TagOf(r) == Valid && StoreDoubleSpec(cw, sw, r, Valid) == Stored(Some(d), sw)
  {
    PackUnpackDouble(d);
    var r, m := LoadDoubleSpec(d), DoubleFrac(d);
    var k := LeadingZeros(m * 0x800);
    assert k >= 1;
    var t := r.(exp := r.exp + 1074);
    assert t.Field() == r.Field() + 1074 && t.Neg() == r.Neg() && t.Sig() == r.Sig();
    assert Pow2(11) == 0x800 by { Pow2Values(); }
    ReloadExact(cw.rc, t, m, 11, k);
    assert StoreDoubleSpec(cw, sw, r, Valid) == TinyDouble(cw, sw, r, t, Valid);
  }

  /** Cutting off as many bits as were shifted in loses nothing. */
  lemma ReloadExact(mode: Mode, t: Reg, m: u64, g: nat, k: nat)
    requires t.Sig() == m * Pow2(g) * Pow2(k) && 63 - t.Exponent() == g + k
    ensures RoundedSig(mode, t, Valid) == m && RoundingCode(mode, t, Valid) == Exact
  {
    ScaleFraction(m, g, k);
    RoundMagExact(mode, t.Neg(), m, Pow2(g + k));
  }

  lemma SpecialDoubleRoundTrip(cw: Control, sw: Status, d: Double)
    requires DoubleExp(d) == 0x7ff && !SignallingDouble(d)
    ensures var r := LoadDoubleSpec(d);
      TagOf(r) == Special && StoreDoubleSpec(cw, sw, r, Special) == Stored(Some(d), sw)
  {
    PackUnpackDouble(d);
    var r, m := LoadDoubleSpec(d), DoubleFrac(d);
    Words(r);
    var frac, l := d.hi % 0x10_0000, d.lo;
    FractionWords(frac, l);
    DivModUnique(r.Sig(), BIT31 + frac * 0x800 + l / 0x20_0000, l * 0x800 % TWO32, TWO32);
    DivModUnique(l * 0x800, l / 0x20_0000, l % 0x20_0000 * 0x800, TWO32);
    assert r.sigh == BIT31 + frac * 0x800 + l / 0x20_0000 && r.sigl == l % 0x20_0000 * 0x800;
    if m == 0 {
      assert r.sigh == BIT31 && r.sigl == 0;
    } else {
      NaNDoubleWords(frac, l);
      assert r.sigh % BIT31 >= 0x4000_0000;
      assert SpecialKind(r) == NaN;
    }
  }

  /** Shifting the fraction down again undoes the shift up. */
  lemma NaNDoubleWords(frac: nat, l: u32)
    requires frac < 0x10_0000
    ensures var sigh, sigl := BIT31 + frac * 0x800 + l / 0x20_0000, l % 0x20_0000 * 0x800;
      && sigh / 0x800 % 0x10_0000 == frac && sigl / 0x800 + sigh % 0x800 * 0x20_0000 == l
      && sigh % BIT31 == frac * 0x800 + l / 0x20_0000
  {
    var sigh := BIT31 + frac * 0x800 + l / 0x20_0000;
    DivModUnique(sigh, 0x10_0000 + frac, l / 0x20_0000, 0x800);
    DivModUnique(0x10_0000 + frac, 1, frac, 0x10_0000);
    DivModUnique(sigh, 1, frac * 0x800 + l / 0x20_0000, BIT31);
    DivModUnique(l % 0x20_0000 * 0x800, l % 0x20_0000, 0, 0x800);
  }

  // ----- singles -----

  predicate SingleNeg(w: u32) { w >= BIT31 }

  predicate SingleDenormal(w: u32) { SingleExp(w) == 0 && SingleFrac(w) != 0 }

  function LoadSingleSpec(w: u32): Reg {
    var neg, be, m := SingleNeg(w), SingleExp(w), SingleFrac(w);
    if be == 0xff then MakeReg(neg, 0x7fff, TWO63 + m * 0x100_0000_0000)
    else if be == 0 && m == 0 then MakeReg(neg, 0, 0)
    else if be == 0 then Normalized(neg, -126, m * 0x100_0000_0000)
    else MakeReg(neg, be + 0x3f80, TWO63 + m * 0x100_0000_0000)
  }

  method LoadSingle(f: Fpu, m: u32, loaded: FpuReg) returns (tag: Tag)
    modifies loaded, f`partialStatus
    ensures loaded.Val() == LoadSingleSpec(m) && tag == TagOf(loaded.Val())
    ensures f.partialStatus == if SingleDenormal(m) then DenormalOperand(f.controlWord, old(f.partialStatus))
                               else old(f.partialStatus)
  {
    var negative := m >= BIT31;
    SingleBits(m);
    if m % BIT31 == 0 {
      loaded.Set(CONST_Z);
      loaded.exp := loaded.exp + if negative then 0x8000 else 0;
      return Zero;
    }
    var exp := m / TWO23 % 0x100 - 127 + EXTENDED_Ebias;
    var m32 := m % TWO23 * 0x100;
    if exp < -126 + EXTENDED_Ebias {
      loaded.sigh, loaded.sigl := m32, 0;
      assert loaded.Val().Sig() == SingleFrac(m) * 0x100_0000_0000;
      tag := NormalizeNoExcep(loaded, -126, negative);
      var _ := f.DenormalOperand();
      return;
    } else if exp > 127 + EXTENDED_Ebias {
      if m32 == 0 {
        loaded.sigh, loaded.sigl := 0x8000_0000, 0;
      } else {
        loaded.sigh, loaded.sigl := m32 + 0x8000_0000, 0;
      }
      exp := EXP_OVER + EXTENDED_Ebias;
      tag := Special;
    } else {
      loaded.sigh, loaded.sigl := m32 + 0x8000_0000, 0;
      tag := Valid;
    }
    loaded.exp := exp + if negative then 0x8000 else 0;
    assert loaded.Val().Sig() == LoadSingleSpec(m).Sig() && loaded.Val().exp == LoadSingleSpec(m).exp;
    Words(loaded.Val());
    Words(LoadSingleSpec(m));
  }

  /** The word without its sign is zero exactly when exponent and fraction are. */
  lemma SingleBits(w: u32)
    ensures w % BIT31 == SingleExp(w) * TWO23 + SingleFrac(w)
    ensures w == (if SingleNeg(w) then BIT31 else 0) + SingleExp(w) * TWO23 + SingleFrac(w)
  {
    var t := w / TWO23;
    assert w == t * TWO23 + w % TWO23 && t == t / 0x100 * 0x100 + t % 0x100;
    DivModUnique(w, t / 0x100, t % 0x100 * TWO23 + w % TWO23, BIT31);
  }

  lemma LoadSingleExact(w: u32)
    requires SingleExp(w) != 0xff
    ensures var r := LoadSingleSpec(w);
      r.Neg() == SingleNeg(w) && Mag(r) == SingleMag(w) && (TagOf(r) == Zero || TagOf(r) == Valid)
  {
    hide Pow2;
    var r, m, be := LoadSingleSpec(w), SingleFrac(w), SingleExp(w);
    Words(r);
    assert Pow2(40) == 0x100_0000_0000 && Pow2(23) == TWO23 by { Pow2Values(); }
    if be == 0 && m != 0 {
      NormalizedMag(SingleNeg(w), -126, m * 0x100_0000_0000);
      ScaleFraction(m, 40, 16319);
    } else if be != 0 {
      NormalLoadMag(24, SINGLE_KMIN, r, m, be);
    }
  }

  predicate SignallingSingle(w: u32) {
    SingleExp(w) == 0xff && 0 < SingleFrac(w) < TWO23 / 2
  }

  lemma SingleRoundTrip(cw: Control, sw: Status, w: u32)
    requires !SignallingSingle(w)
    ensures var r := LoadSingleSpec(w); StoreSingleSpec(cw, sw, r, TagOf(r)) == Stored(Some(w), sw)
  {
    SingleBits(w);
    if SingleExp(w) == 0xff {
      SpecialSingleRoundTrip(cw, sw, w);
    } else if SingleExp(w) == 0 && SingleFrac(w) == 0 {
      Words(LoadSingleSpec(w));
    } else if SingleExp(w) == 0 {
      DenormalSingleRoundTrip(cw, sw, w);
    } else {
      NormalSingleRoundTrip(cw, sw, w);
    }
  }

  lemma NormalSingleRoundTrip(cw: Control, sw: Status, w: u32)
    requires 0 < SingleExp(w) < 0xff
    ensures var r := LoadSingleSpec(w);
      TagOf(r) == Valid && StoreSingleSpec(cw, sw, r, Valid) == Stored(Some(w), sw)
  {
    SingleBits(w);
    var r, m := LoadSingleSpec(w), SingleFrac(w);
    Words(r);
    assert r.Sig() == (TWO23 + m) * 0x100_0000_0000;
    RoundMagExact(cw.rc, r.Neg(), TWO23 + m, 0x100_0000_0000);
    var q := 0x100_0000_0000;
    assert Mantissa(cw.rc, r, q, TWO23) == TWO23 + m && RoundedExponent(cw.rc, r, q, TWO23) == r.Exponent();
    ModSmall(SingleExp(w), 0x100);
  }

  lemma DenormalSingleRoundTrip(cw: Control, sw: Status, w: u32)
    requires SingleDenormal(w)
    ensures var r := LoadSingleSpec(w);
      TagOf(r) == Valid && StoreSingleSpec(cw, sw, r, Valid) == Stored(Some(w), sw)
  {
    SingleBits(w);
    var r, m := LoadSingleSpec(w), SingleFrac(w);
    var k := LeadingZeros(m * 0x100_0000_0000);
    assert k >= 1;
    var t := r.(exp := r.exp + 149);
    assert t.Field() == r.Field() + 149 && t.Neg() == r.Neg() && t.Sig() == r.Sig();
    assert Pow2(40) == 0x100_0000_0000 by { Pow2Values(); }
    ReloadExact(cw.rc, t, m, 40, k);
    ModSmall(m, TWO32);
    assert StoreSingleSpec(cw, sw, r, Valid) == TinySingle(cw, sw, r, t, Valid);
  }

  lemma SpecialSingleRoundTrip(cw: Control, sw: Status, w: u32)
    requires SingleExp(w) == 0xff && !SignallingSingle(w)
    ensures var r := LoadSingleSpec(w);
      TagOf(r) == Special && StoreSingleSpec(cw, sw, r, Special) == Stored(Some(w), sw)
  {
    SingleBits(w);
    var r, m := LoadSingleSpec(w), SingleFrac(w);
    Words(r);
    DivModUnique(r.Sig(), BIT31 + m * 0x100, 0, TWO32);
    assert r.sigh == BIT31 + m * 0x100 && r.sigl == 0;
    DivModUnique(r.sigh, 1, m * 0x100, BIT31);
    if m != 0 {
      assert SpecialKind(r) == NaN;
    }
  }
}
