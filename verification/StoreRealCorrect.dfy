/** What FPU_store_double and FPU_store_single promise: whenever they write a finite
    number it is the register correctly rounded, in every rounding mode, on the normal
    path, on the denormal path and between the two. */
module StoreRealCorrect {
  import opened Arith
  import opened Powers
  import opened Rounding
  import opened FpuRegs
  import opened FpuState
  import opened StoreReal

  /** Magnitude of a finite binary number in units of 2^-16508: e is the biased
      exponent, m the stored fraction, p the precision and 2^kmin the spacing of the
      denormals (sections 3.3 and 3.4 of IEEE 754-2008). */
  function BinaryMag(p: nat, kmin: nat, e: nat, m: nat): nat
    requires p >= 1
  {
    if e == 0 then m * Pow2(kmin) else (Pow2(p - 1) + m) * Pow2(e - 1 + kmin)
  }

  const DOUBLE_KMIN: nat := 15434
  const SINGLE_KMIN: nat := 16359

  function DoubleExp(d: Double): nat { d.hi / 0x10_0000 % 0x800 }
  function DoubleFrac(d: Double): nat { d.hi % 0x10_0000 * TWO32 + d.lo }
  function DoubleMag(d: Double): nat { BinaryMag(53, DOUBLE_KMIN, DoubleExp(d), DoubleFrac(d)) }

  function SingleExp(w: u32): nat { w / TWO23 % 0x100 }
  function SingleFrac(w: u32): nat { w % TWO23 }
  function SingleMag(w: u32): nat { BinaryMag(24, SINGLE_KMIN, SingleExp(w), SingleFrac(w)) }

  /** Rounding of the 64-bit significand s with exponent e to p bits, as a magnitude:
      2^g, with g = 64 - p, is cut off the end. */
  lemma NormalRounding(p: nat, kmin: nat, mode: Mode, neg: bool, s: u64, e: int)
    requires 2 <= p <= 64 && e >= -16445 && e + 16509 >= kmin + p
    requires s >= TWO63
    ensures var n := RoundMag(mode, neg, s, Pow2(64 - p));
      CorrectlyRounded(p, kmin, mode, neg, MagOf(s, e), n * Pow2(e + 16509 - p))
  {
    hide Pow2, RoundMag, CorrectlyRounded;
    var g, a := 64 - p, e + 16445;
    NormalQuantum(p, kmin, s, a);
    Pow2Add(g, a);
    RoundMagScale(mode, neg, s, Pow2(g), Pow2(a));
    RoundToFormat(p, kmin, mode, neg, MagOf(s, e), g + a);
  }

  lemma NormalQuantum(p: nat, kmin: nat, s: u64, a: nat)
    requires 2 <= p <= 64 && a + 64 >= kmin + p && s >= TWO63
    ensures Quantum(p, kmin, s * Pow2(a), 64 - p + a)
  {
    hide Pow2;
    var k := 64 - p + a;
    Pow2Add(p, k); Pow2Add(64, a); Pow2Add(p - 1, k); Pow2Add(63, a);
    Pow2Values();
    MulStrict(s, TWO64, Pow2(a));
    MulMono(TWO63, s, Pow2(a));
  }

  /** Below the smallest normal number the spacing is 2^kmin whatever the exponent:
      rounding the significand after a shift by kmin - a is rounding the magnitude. */
  lemma TinyRounding(p: nat, kmin: nat, mode: Mode, neg: bool, s: u64, a: nat)
    requires 2 <= p && 64 + a < kmin + p && a <= kmin
    ensures CorrectlyRounded(p, kmin, mode, neg, s * Pow2(a),
      RoundMag(mode, neg, s, Pow2(kmin - a)) * Pow2(kmin))
  {
    hide Pow2;
    Pow2Add(kmin - a, a);
    RoundMagScale(mode, neg, s, Pow2(kmin - a), Pow2(a));
    assert Quantum(p, kmin, s * Pow2(a), kmin) by {
      Pow2Add(64, a); Pow2Add(p, kmin);
      Pow2Mono(64 + a, p + kmin);
      Pow2Values();
      MulStrict(s, TWO64, Pow2(a));
    }
    RoundToFormat(p, kmin, mode, neg, s * Pow2(a), kmin);
  }

  /** With an exponent of its own range the rounded number is decoded to what was
      rounded, also after a carry into the exponent. */
  lemma NormalDecodes(p: nat, kmin: nat, n: nat, m: nat, carry: bool, k: nat, be: nat)
    requires p >= 1 && n == (if carry then Pow2(p) else m) && (carry ==> m == Pow2(p - 1))
    requires be >= 1 && be - 1 + kmin == k + (if carry then 1 else 0)
    requires m >= Pow2(p - 1)
    ensures BinaryMag(p, kmin, be, m - Pow2(p - 1)) == n * Pow2(k)
  {
    hide Pow2;
    if carry {
      CarryOut(p, k);
    }
  }

  // ----- doubles -----

  lemma DoubleFields(neg: bool, m: nat, be: nat)
    requires m < TWO52 && be < 0x800
    ensures var d := PackDouble(neg, m, be);
      DoubleExp(d) == be && DoubleFrac(d) == m && (d.hi >= BIT31 <==> neg)
  {
    hide Pow2;
    var d, h := PackDouble(neg, m, be), m / TWO32;
    assert h < 0x10_0000 && m == h * TWO32 + m % TWO32;
    var s := if neg then 0x800 else 0;
    assert d.hi == (s + be) * 0x10_0000 + h;
    DivModUnique(d.hi, s + be, h, 0x10_0000);
    DivModUnique(s + be, if neg then 1 else 0, be, 0x800);
  }

  /** The store overflows: the rounded number needs an exponent above 1023. */
  predicate DoubleOverflows(mode: Mode, r: Reg) {
    TagOf(r) == Valid && RoundedExponent(mode, r, 0x800, TWO52) > 1023
  }

  /** The normal path in numbers: mantissa and exponent after rounding are the
      correctly rounded magnitude. */
  lemma NormalMag(p: nat, kmin: nat, q: nat, half: nat, bias: nat, mode: Mode, r: Reg)
    requires 2 <= p <= 64 && q == Pow2(64 - p) && half == Pow2(p - 1)
    requires bias + kmin == 16509 - p + 1 && kmin >= 1
    requires TagOf(r) == Valid && r.Exponent() + bias >= 1
    ensures var m, be := Mantissa(mode, r, q, half), RoundedExponent(mode, r, q, half) + bias;
      && half <= m < 2 * half && be >= 1
      && BinaryMag(p, kmin, be, m - half) == RoundMag(mode, r.Neg(), r.Sig(), q) * Pow2(r.Exponent() + 16509 - p)
      && CorrectlyRounded(p, kmin, mode, r.Neg(), Mag(r), BinaryMag(p, kmin, be, m - half))
  {
    hide Pow2, RoundMag, CorrectlyRounded;
    MagValid(r);
    NormalRounding(p, kmin, mode, r.Neg(), r.Sig(), r.Exponent());
    Pow2Values();
    Pow2Add(p - 1, 64 - p);
    Doubled(p - 1);
    MantissaRange(mode, r, q, half);
    var n := RoundMag(mode, r.Neg(), r.Sig(), q);
    NormalDecodes(p, kmin, n, Mantissa(mode, r, q, half), n == 2 * half, r.Exponent() + 16509 - p,
                  RoundedExponent(mode, r, q, half) + bias);
  }

  lemma NormalDoubleCorrect(cw: Control, sw: Status, r: Reg)
    requires TagOf(r) == Valid && r.Exponent() >= -1022 && !DoubleOverflows(cw.rc, r)
    ensures var d := NormalDouble(cw, sw, r).image;
      && d.Some? && (d.value.hi >= BIT31 <==> r.Neg()) && 1 <= DoubleExp(d.value) < 0x7ff
      && DoubleMag(d.value) == RoundMag(cw.rc, r.Neg(), r.Sig(), 0x800) * Pow2(r.Exponent() + 16456)
      && CorrectlyRounded(53, DOUBLE_KMIN, cw.rc, r.Neg(), Mag(r), DoubleMag(d.value))
  {
    hide Pow2, RoundMag, CorrectlyRounded, BinaryMag;
    assert Pow2(11) == 0x800 && Pow2(52) == TWO52 by { Pow2Values(); }
    NormalMag(53, DOUBLE_KMIN, 0x800, TWO52, 1023, cw.rc, r);
    var m, e := Mantissa(cw.rc, r, 0x800, TWO52), RoundedExponent(cw.rc, r, 0x800, TWO52);
    NormalDoubleImage(cw, sw, r, m, e);
    DoubleFields(r.Neg(), m - TWO52, e + 1023);
  }

  lemma NormalDoubleImage(cw: Control, sw: Status, r: Reg, m: nat, e: int)
    requires TagOf(r) == Valid && r.Exponent() >= -1022
    requires m == Mantissa(cw.rc, r, 0x800, TWO52) && e == RoundedExponent(cw.rc, r, 0x800, TWO52) <= 1023
    requires TWO52 <= m < 2 * TWO52
    ensures NormalDouble(cw, sw, r).image == Some(PackDouble(r.Neg(), m - TWO52, e + 1023))
  {
    ModSmall(e + 1023, 0x800);
  }

  /** A denormal result; 2^52, one more than the largest fraction, is stored as the
      smallest normal number, which is what it denotes. */
  lemma TinyDoubleFields(neg: bool, n: nat, d: Double)
    requires n <= TWO52
    requires d.lo == n % TWO32 && d.hi == WithSign(neg, n / TWO32)
    ensures DoubleExp(d) <= 1 && DoubleMag(d) == n * Pow2(DOUBLE_KMIN)
    ensures d.hi >= BIT31 <==> neg
  {
    hide Pow2;
    Pow2Values();
    if n < TWO52 {
      DoubleFields(neg, n, 0);
    } else {
      DoubleFields(neg, 0, 1);
    }
  }

  /** The denormal path in numbers: t is r with its exponent raised so that the
      integer part is what is left after cutting at 2^kmin. */
  lemma TinyMag(p: nat, kmin: nat, mode: Mode, r: Reg, t: Reg)
    requires 2 <= p <= 64 && 64 <= kmin <= 16508
    requires TagOf(r) == Valid && r.Exponent() + 16509 < kmin + p
    requires t.Sig() == r.Sig() && t.Neg() == r.Neg() && t.Exponent() == r.Exponent() + 16508 - kmin
    ensures RoundedSig(mode, t, Valid) <= Pow2(p - 1)
    ensures CorrectlyRounded(p, kmin, mode, r.Neg(), Mag(r), RoundedSig(mode, t, Valid) * Pow2(kmin))
  {
    hide Pow2, RoundMag, CorrectlyRounded;
    MagValid(r);
    var a := r.Exponent() + 16445;
    assert 63 - t.Exponent() == kmin - a;
    TinyRounding(p, kmin, mode, r.Neg(), r.Sig(), a);
    SmallAfterShift(mode, r.Neg(), r.Sig(), kmin - a, p - 1);
  }

  lemma TinyDoubleCorrect(cw: Control, sw: Status, r: Reg)
    requires TagOf(r) == Valid && r.Exponent() < -1022
    ensures var d := TinyDouble(cw, sw, r, r.(exp := r.exp + 1074), Valid).image;
      d.Some? ==>
        && (d.value.hi >= BIT31 <==> r.Neg()) && DoubleExp(d.value) <= 1
        && CorrectlyRounded(53, DOUBLE_KMIN, cw.rc, r.Neg(), Mag(r), DoubleMag(d.value))
  {
    hide Pow2, RoundMag, CorrectlyRounded, BinaryMag, DoubleMag, DoubleExp, RoundedSig, RoundingCode, TinyStatus, Mag;
    var t := r.(exp := r.exp + 1074);
    assert t.Field() == r.Field() + 1074 && t.Neg() == r.Neg();
    assert Pow2(52) == TWO52 by { Pow2Values(); }
    TinyMag(53, DOUBLE_KMIN, cw.rc, r, t);
    var d := TinyDouble(cw, sw, r, t, Valid).image;
    if d.Some? {
      TinyDoubleFields(r.Neg(), RoundedSig(cw.rc, t, Valid), d.value);
    }
  }

  /** Shifting out 64 - b bits or more leaves at most 2^b after rounding. */
  lemma SmallAfterShift(mode: Mode, neg: bool, s: u64, n: nat, b: nat)
    requires b <= 64 && n >= 64 - b
    ensures RoundMag(mode, neg, s, Pow2(n)) <= Pow2(b)
  {
    hide Pow2;
    assert s < Pow2(64) by { Pow2Values(); }
    Pow2Add(b, n);
    Pow2Mono(64, b + n);
    FloorBelow(s, Pow2(b), Pow2(n));
    RoundMagNear(mode, neg, s, Pow2(n));
  }

  /** A denormal register is rounded with the shift meant for its exponent field of
      zero, 1075 too much for its value; both give 0, or 1 when rounding away. */
  lemma DenormalRounds(p: nat, kmin: nat, mode: Mode, r: Reg)
    requires p >= 2 && 128 <= kmin && r.Field() == 0
    ensures RoundedSig(mode, r, Denormal) <= 1
    ensures CorrectlyRounded(p, kmin, mode, r.Neg(), Mag(r), RoundedSig(mode, r, Denormal) * Pow2(kmin))
  {
    hide Pow2, RoundMag, CorrectlyRounded;
    var n := 63 - r.Exponent();
    TinyShift(mode, r.Neg(), r.Sig(), n);
    TinyShift(mode, r.Neg(), r.Sig(), kmin - 63);
    TinyRounding(p, kmin, mode, r.Neg(), r.Sig(), 63);
  }

  /** Shifting out 65 bits or more leaves 0, or 1 when rounding away. */
  lemma TinyShift(mode: Mode, neg: bool, s: u64, n: nat)
    requires n >= 65
    ensures RoundMag(mode, neg, s, Pow2(n)) == if Away(mode, neg) && s > 0 then 1 else 0
  {
    hide Pow2;
    Pow2Values();
    Pow2StrictMono(64, n);
    RoundMagTiny(mode, neg, s, Pow2(n));
  }

  /** Main result for doubles. For a numeric register with its proper tag, whatever the
      store writes without overflowing is a finite double that has the register's sign
      and is the register's value correctly rounded; and with all exceptions masked it
      always writes. */
  lemma StoreDoubleCorrect(cw: Control, sw: Status, r: Reg)
    requires Numeric(r)
    ensures var d := StoreDoubleSpec(cw, sw, r, TagOf(r)).image;
      && (d.Some? && !DoubleOverflows(cw.rc, r) ==>
            && (d.value.hi >= BIT31 <==> r.Neg()) && DoubleExp(d.value) < 0x7ff
            && CorrectlyRounded(53, DOUBLE_KMIN, cw.rc, r.Neg(), Mag(r), DoubleMag(d.value)))
      && (d.Some? && DoubleOverflows(cw.rc, r) ==> DoubleExp(d.value) == 0x7ff)
      && (cw.masks == ALL_MASKED ==> d.Some?)
  {
    hide Pow2, RoundMag, CorrectlyRounded, BinaryMag;
    if TagOf(r) != Valid {
      DenormalRounds(53, DOUBLE_KMIN, cw.rc, r);
      var d := StoreDoubleSpec(cw, sw, r, TagOf(r)).image;
      if d.Some? {
        TinyDoubleFields(r.Neg(), RoundedSig(cw.rc, r, Denormal), d.value);
      }
    } else if r.Exponent() < -1022 {
      TinyDoubleCorrect(cw, sw, r);
    } else if !DoubleOverflows(cw.rc, r) {
      NormalDoubleCorrect(cw, sw, r);
    } else {
      OverflowedDouble(cw, sw, r);
    }
  }

  /** On overflow the low word keeps the low word of the rounded significand. */
  lemma OverflowedDouble(cw: Control, sw: Status, r: Reg)
    requires TagOf(r) == Valid && DoubleOverflows(cw.rc, r)
    ensures var d := NormalDouble(cw, sw, r).image;
      d.Some? ==> DoubleExp(d.value) == 0x7ff && DoubleFrac(d.value) == Mantissa(cw.rc, r, 0x800, TWO52) % TWO32
  {
    DoubleFields(r.Neg(), Mantissa(cw.rc, r, 0x800, TWO52) % TWO32, 0x7ff);
  }

  /** The masked response to overflow is meant to be an infinity. It is one exactly
      when the low 32 bits of the rounded significand are zero, which the code never
      checks; otherwise the fraction is not zero and memory holds a NaN. */
  lemma OverflowWritesInfinityIff(cw: Control, sw: Status, r: Reg)
    requires TagOf(r) == Valid && DoubleOverflows(cw.rc, r) && r.Exponent() >= -1022
    requires cw.masks.overflow && cw.masks.precision
    ensures var d := StoreDoubleSpec(cw, sw, r, Valid).image;
      && d.Some? && DoubleExp(d.value) == 0x7ff
      && (DoubleFrac(d.value) == 0 <==> RoundMag(cw.rc, r.Neg(), r.Sig(), 0x800) % TWO32 == 0)
  {
    OverflowedDouble(cw, sw, r);
  }

  /** One that fails: 2^1024 + 2^972. */
  lemma OverflowWritesNaN(sw: Status)
    ensures var r := Reg(0x800, BIT31, 0x43ff);
      && TagOf(r) == Valid
      && StoreDoubleSpec(CW_INIT, sw, r, Valid).image == Some(Double(1, 0x7ff0_0000))
  {
    var r := Reg(0x800, BIT31, 0x43ff);
    assert r.Sig() == (TWO52 + 1) * 0x800;
    RoundMagExact(RND, false, TWO52 + 1, 0x800);
  }

  // ----- singles -----

  lemma SingleFields(neg: bool, m: nat, be: nat)
    requires m < TWO23 && be < 0x100
    ensures var w := PackSingle(neg, m, be);
      SingleExp(w) == be && SingleFrac(w) == m && (w >= BIT31 <==> neg)
  {
    hide Pow2;
    var s, w := if neg then 0x100 else 0, PackSingle(neg, m, be);
    assert w == (s + be) * TWO23 + m;
    DivModUnique(w, s + be, m, TWO23);
    DivModUnique(s + be, if neg then 1 else 0, be, 0x100);
  }

  predicate SingleOverflows(mode: Mode, r: Reg) {
    TagOf(r) == Valid && RoundedExponent(mode, r, 0x100_0000_0000, TWO23) > 127
  }

  lemma NormalSingleCorrect(cw: Control, sw: Status, r: Reg)
    requires TagOf(r) == Valid && r.Exponent() >= -126 && !SingleOverflows(cw.rc, r)
    ensures var w := NormalSingle(cw, sw, r).image;
      && w.Some? && (w.value >= BIT31 <==> r.Neg()) && 1 <= SingleExp(w.value) < 0xff
      && SingleMag(w.value) == RoundMag(cw.rc, r.Neg(), r.Sig(), 0x100_0000_0000) * Pow2(r.Exponent() + 16485)
      && CorrectlyRounded(24, SINGLE_KMIN, cw.rc, r.Neg(), Mag(r), SingleMag(w.value))
  {
    hide Pow2, RoundMag, CorrectlyRounded, BinaryMag;
    assert Pow2(40) == 0x100_0000_0000 && Pow2(23) == TWO23 by { Pow2Values(); }
    NormalMag(24, SINGLE_KMIN, 0x100_0000_0000, TWO23, 127, cw.rc, r);
    var m, e := Mantissa(cw.rc, r, 0x100_0000_0000, TWO23), RoundedExponent(cw.rc, r, 0x100_0000_0000, TWO23);
    NormalSingleImage(cw, sw, r, m, e);
    SingleFields(r.Neg(), m - TWO23, e + 127);
  }

  lemma NormalSingleImage(cw: Control, sw: Status, r: Reg, m: nat, e: int)
    requires TagOf(r) == Valid && r.Exponent() >= -126
    requires m == Mantissa(cw.rc, r, 0x100_0000_0000, TWO23)
      && e == RoundedExponent(cw.rc, r, 0x100_0000_0000, TWO23) <= 127
    requires TWO23 <= m < 2 * TWO23
    ensures NormalSingle(cw, sw, r).image == Some(PackSingle(r.Neg(), m - TWO23, e + 127))
  {
    ModSmall(e + 127, 0x100);
  }

  lemma TinySingleFields(neg: bool, n: nat, w: u32)
    requires n <= TWO23 && w == WithSign(neg, n)
    ensures SingleExp(w) <= 1 && SingleMag(w) == n * Pow2(SINGLE_KMIN)
    ensures w >= BIT31 <==> neg
  {
    hide Pow2;
    Pow2Values();
    if n < TWO23 {
      SingleFields(neg, n, 0);
    } else {
      SingleFields(neg, 0, 1);
    }
  }

  lemma TinySingleCorrect(cw: Control, sw: Status, r: Reg)
    requires TagOf(r) == Valid && r.Exponent() < -126
    ensures var w := TinySingle(cw, sw, r, r.(exp := r.exp + 149), Valid).image;
      w.Some? ==>
        && (w.value >= BIT31 <==> r.Neg()) && SingleExp(w.value) <= 1
        && CorrectlyRounded(24, SINGLE_KMIN, cw.rc, r.Neg(), Mag(r), SingleMag(w.value))
  {
    hide Pow2, RoundMag, CorrectlyRounded, BinaryMag, SingleMag, SingleExp, RoundedSig, RoundingCode, TinyStatus, Mag;
    var t := r.(exp := r.exp + 149);
    assert t.Field() == r.Field() + 149 && t.Neg() == r.Neg();
    assert Pow2(23) == TWO23 by { Pow2Values(); }
    TinyMag(24, SINGLE_KMIN, cw.rc, r, t);
    var w := TinySingle(cw, sw, r, t, Valid).image;
    if w.Some? {
      ModSmall(RoundedSig(cw.rc, t, Valid), TWO32);
      TinySingleFields(r.Neg(), RoundedSig(cw.rc, t, Valid), w.value);
    }
  }

  /** Main result for singles; an overflow always writes an infinity. */
  lemma StoreSingleCorrect(cw: Control, sw: Status, r: Reg)
    requires Numeric(r)
    ensures var w := StoreSingleSpec(cw, sw, r, TagOf(r)).image;
      && (w.Some? && !SingleOverflows(cw.rc, r) ==>
            && (w.value >= BIT31 <==> r.Neg()) && SingleExp(w.value) < 0xff
            && CorrectlyRounded(24, SINGLE_KMIN, cw.rc, r.Neg(), Mag(r), SingleMag(w.value)))
      && (w.Some? && SingleOverflows(cw.rc, r) ==>
            SingleExp(w.value) == 0xff && SingleFrac(w.value) == 0 && (w.value >= BIT31 <==> r.Neg()))
      && (cw.masks == ALL_MASKED ==> w.Some?)
  {
    hide Pow2, RoundMag, CorrectlyRounded, BinaryMag;
    if TagOf(r) != Valid {
      DenormalSingleCorrect(cw, sw, r);
    } else if r.Exponent() < -126 {
      TinySingleCorrect(cw, sw, r);
    } else if !SingleOverflows(cw.rc, r) {
      NormalSingleCorrect(cw, sw, r);
    } else {
      OverflowedSingle(cw, sw, r);
    }
  }

  lemma DenormalSingleCorrect(cw: Control, sw: Status, r: Reg)
    requires r.Field() == 0
    ensures var w := TinySingle(cw, sw, r, r, Denormal).image;
      w.Some? ==>
        && (w.value >= BIT31 <==> r.Neg()) && SingleExp(w.value) <= 1
        && CorrectlyRounded(24, SINGLE_KMIN, cw.rc, r.Neg(), Mag(r), SingleMag(w.value))
  {
    hide Pow2, RoundMag, CorrectlyRounded, BinaryMag;
    DenormalRounds(24, SINGLE_KMIN, cw.rc, r);
    var n, w := RoundedSig(cw.rc, r, Denormal), TinySingle(cw, sw, r, r, Denormal).image;
    if w.Some? {
      ModSmall(n, TWO32);
      TinySingleFields(r.Neg(), n, w.value);
    }
  }

  lemma OverflowedSingle(cw: Control, sw: Status, r: Reg)
    requires TagOf(r) == Valid && SingleOverflows(cw.rc, r)
    ensures var w := NormalSingle(cw, sw, r).image;
      w.Some? ==> SingleExp(w.value) == 0xff && SingleFrac(w.value) == 0 && (w.value >= BIT31 <==> r.Neg())
  {
    SingleFields(r.Neg(), 0, 0xff);
  }
}
