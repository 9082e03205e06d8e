/** extras/x87-emu/reg_compare.c and reg_convert.c: comparison of registers. Its
    independent definition is the order of the extended numbers they stand for. */
module Compare {
  import opened Arith
  import opened Powers
  import opened Rounding
  import opened FpuRegs
  import opened FpuState
  import opened FpuMachine

  // ----- what is compared -----

  /** Extended numbers; finite ones in the unit of FpuRegs.Mag, so that both zeros
      are the same number. */
  datatype Extended = NegInfinity | Finite(v: int) | PosInfinity

  function Number(r: Reg): Extended
    requires Kind(r, TagOf(r)) != NaN
  {
    if Kind(r, TagOf(r)) == Infinity then
      if r.Neg() then NegInfinity else PosInfinity
    else if r.Neg() then Finite(0 - Mag(r))
    else Finite(Mag(r))
  }

  predicate Below(x: Extended, y: Extended) {
    match (x, y)
    case (Finite(v), Finite(w)) => v < w
    case (NegInfinity, _) => y != NegInfinity
    case (_, PosInfinity) => x != PosInfinity
    case _ => false
  }

  predicate IsNaN(r: Reg) { Kind(r, TagOf(r)) == NaN }

  // ----- FPU_to_exp16 -----

  function RegOf(s: u64, e: int): (x: Reg)
    ensures x.Sig() == s
    ensures -0x8000 <= e < 0x8000 ==> x.Exponent16() == e
  {
    Reg(s % TWO32, s / TWO32, e % 0x1_0000)
  }

  /** The sign is dropped and the exponent becomes a signed 16-bit number, which
      leaves room to shift out the leading zeros of a denormal. */
  function ToExp16(a: Reg): Reg
    requires Numeric(a)
  {
    if a.Field() != 0 then RegOf(a.Sig(), a.Exponent())
    else if a.Sig() >= TWO63 then RegOf(a.Sig(), EXP_UNDER + 1)
    else RegOf(a.Sig() * Pow2(LeadingZeros(a.Sig())), EXP_UNDER + 1 - LeadingZeros(a.Sig()))
  }

  lemma ToExp16Keeps(a: Reg)
    requires Numeric(a)
    ensures var x := ToExp16(a);
      && x.Sig() >= TWO63 && x.Exponent16() >= -16445
      && MagOf(x.Sig(), x.Exponent16()) == Mag(a)
  {
    hide Pow2;
    if a.Field() == 0 && a.Sig() < TWO63 {
      ShiftOut(a.Sig(), LeadingZeros(a.Sig()));
    }
  }

  lemma ShiftOut(s: nat, n: nat)
    requires n <= 63
    ensures MagOf(s * Pow2(n), EXP_UNDER + 1 - n) == s * Pow2(63)
  {
    Pow2Add(n, 63 - n);
    MulAssoc(s, Pow2(n), Pow2(63 - n));
  }

  lemma SameReg(x: Reg, y: Reg)
    requires x.Sig() == y.Sig() && x.exp == y.exp
    ensures x == y
  {
    Words(x);
    Words(y);
  }

  lemma SixteenBits(n: nat)
    requires n <= 63
    ensures (EXP_UNDER + 1 - n) % 0x1_0000 == 0xc002 - n == (0xc002 - n) % 0x1_0000
  {
  }

  method FpuToExp16(a: Reg, x: FpuReg) returns (sign: bool)
    requires Numeric(a)
    modifies x
    ensures x.Val() == ToExp16(a) && sign == a.Neg()
  {
    sign := a.Neg();
    x.sigl, x.sigh, x.exp := a.sigl, a.sigh, a.Exponent() % 0x1_0000;
    if a.Field() == 0 {
      Denormalized(a, x);
    }
    SameReg(x.Val(), ToExp16(a));
  }

  /** The branch for an exponent of EXP_UNDER. */
  method Denormalized(a: Reg, x: FpuReg)
    requires Numeric(a) && a.Field() == 0 && x.Val().Sig() == a.Sig() && x.exp == 0xc001
    modifies x
    ensures x.Val().Sig() == ToExp16(a).Sig() && x.exp == ToExp16(a).exp
  {
    x.exp := x.exp + 1;
    if x.sigh < BIT31 {
      assert a.Sig() < TWO63;
      var _ := NormalizeNuo(x);
      SixteenBits(LeadingZeros(a.Sig()));
    } else {
      SixteenBits(0);
    }
  }

  // ----- compare -----

  datatype Order = AGreater | Equal | ALess | NoComp

  /** The codes of fpu_emu.h: an order, and the bits COMP_Denormal, COMP_NaN and
      COMP_SNaN. */
  datatype Comp = Comp(order: Order, denormal: bool, nan: bool, signalling: bool)

  function By(aGreater: bool, denormal: bool): Comp {
    Comp(if aGreater then AGreater else ALess, denormal, false, false)
  }

  /** A difference of 32-bit words, read as a signed 32-bit number. */
  function SignedDifference(x: u32, y: u32): int {
    var d := (x - y) % TWO32;
    if d >= BIT31 then d - TWO32 else d
  }

  predicate SignallingNaN(r: Reg) { BIT31 <= r.sigh < 0xc000_0000 }

  predicate Unsupported(r: Reg) { !(r.Exponent() == EXP_OVER && r.sigh >= BIT31) }

  function CompareNaN(b: Reg, kb: Tag, a: Reg, ka: Tag): Comp {
    var signalling := (ka == NaN && SignallingNaN(a)) || (kb == NaN && SignallingNaN(b));
    var unsupported := (ka == NaN && Unsupported(a)) || (kb == NaN && Unsupported(b));
    Comp(NoComp, false, true, signalling || unsupported)
  }

  /** The last step, on normalised significands. */
  function Difference(a: Reg, ea: int, b: Reg, eb: int): int {
    if ea != eb then ea - eb
    else if SignedDifference(a.sigh, b.sigh) != 0 then SignedDifference(a.sigh, b.sigh)
    else if a.sigl > b.sigl then 1
    else if a.sigl < b.sigl then -1
    else 0
  }

  function CompareNumeric(b: Reg, kb: Tag, a: Reg, ka: Tag): Comp
    requires Numeric(a) && Numeric(b)
  {
    var denormal := ka == Denormal || kb == Denormal;
    if a.Neg() != b.Neg() then By(!a.Neg(), denormal)
    else
      var diff :=
        if denormal then
          var x, y := ToExp16(a), ToExp16(b);
          Difference(x, x.Exponent16(), y, y.Exponent16())
        else
          Difference(a, a.Exponent(), b, b.Exponent());
      if diff > 0 then By(!a.Neg(), denormal)
      else if diff < 0 then By(a.Neg(), denormal)
      else Comp(Equal, denormal, false, false)
  }

  /** compare: b against a, which is st(0). */
  function CompareRegs(b: Reg, tagb: Tag, a: Reg, taga: Tag): Comp
    requires tagb == TagOf(b) && taga == TagOf(a)
  {
    var kb, ka := Kind(b, tagb), Kind(a, taga);
    if (ka == Valid || ka == Denormal) && (kb == Valid || kb == Denormal) then CompareNumeric(b, kb, a, ka)
    else if ka == Zero && kb == Zero then Comp(Equal, false, false, false)
    else if ka == Zero && kb == Valid then By(b.Neg(), false)
    else if ka == Zero && kb == Denormal then By(b.Neg(), true)
    else if kb == Zero && ka == Valid then By(!a.Neg(), false)
    else if kb == Zero && ka == Denormal then By(!a.Neg(), true)
    else if ka == Infinity && (kb == Valid || kb == Zero) then By(!a.Neg(), false)
    else if ka == Infinity && kb == Denormal then By(!a.Neg(), true)
    else if ka == Infinity && kb == Infinity then
      if a.Neg() == b.Neg() then Comp(Equal, false, false, false) else By(!a.Neg(), false)
    else if kb == Infinity && (ka == Valid || ka == Zero) then By(b.Neg(), false)
    else if kb == Infinity && ka == Denormal then By(b.Neg(), true)
    else CompareNaN(b, kb, a, ka)
  }

  // ----- correctness -----

  /** An infinite exponent with the two leading bits of the significand set. */
  predicate QuietNaN(r: Reg) { r.Field() == 0x7fff && r.Sig() >= TWO63 + TWO63 / 2 }

  /** Signalling NaNs and unsupported formats are the NaNs that are not quiet. */
  lemma QuietOrNot(r: Reg)
    ensures SignallingNaN(r) || Unsupported(r) <==> !QuietNaN(r)
  {
  }

  lemma HighWordDifference(x: u32, y: u32)
    requires x >= BIT31 && y >= BIT31
    ensures SignedDifference(x, y) == x - y
  {
    if x >= y {
      ModSmall(x - y, TWO32);
    } else {
      DivModUnique(x - y, -1, x - y + TWO32, TWO32);
    }
  }

  lemma WordOrder(a: Reg, b: Reg)
    ensures a.Sig() < b.Sig() <==> a.sigh < b.sigh || (a.sigh == b.sigh && a.sigl < b.sigl)
  {
  }

  /** Normalised numbers are ordered by exponent, then by significand. */
  lemma MagOrder(s: nat, e: int, t: nat, f: int)
    requires TWO63 <= s < TWO64 && TWO63 <= t < TWO64 && e >= -16445 && f >= -16445
    ensures e < f ==> MagOf(s, e) < MagOf(t, f)
    ensures e == f ==> (MagOf(s, e) < MagOf(t, f) <==> s < t)
  {
    var p, q := Pow2(e + 16445), Pow2(f + 16445);
    if e < f {
      Pow2StrictMono(e + 16445, f + 16445);
      MulStrict(s, TWO64, p);
      MulMonoRight(TWO63, 2 * p, q);
      MulMono(TWO63, t, q);
    } else if e == f {
      if s < t { MulStrict(s, t, p); } else { MulMono(t, s, p); }
    }
  }

  lemma DifferenceIsOrder(a: Reg, ea: int, b: Reg, eb: int)
    requires a.sigh >= BIT31 && b.sigh >= BIT31 && ea >= -16445 && eb >= -16445
    ensures var d, x, y := Difference(a, ea, b, eb), MagOf(a.Sig(), ea), MagOf(b.Sig(), eb);
      (d > 0 <==> x > y) && (d < 0 <==> x < y)
  {
    HighWordDifference(a.sigh, b.sigh);
    WordOrder(a, b);
    WordOrder(b, a);
    MagOrder(a.Sig(), ea, b.Sig(), eb);
    MagOrder(b.Sig(), eb, a.Sig(), ea);
  }

  lemma NumericPositive(a: Reg)
    requires Numeric(a)
    ensures Mag(a) > 0
  {
    MulAtLeast(a.Sig(), Pow2((if a.Field() == 0 then 1 else a.Field()) + 62));
  }

  lemma CompareNumericCorrect(b: Reg, kb: Tag, a: Reg, ka: Tag)
    requires Numeric(a) && Numeric(b) && ka == Kind(a, TagOf(a)) && kb == Kind(b, TagOf(b))
    ensures var c, x, y := CompareNumeric(b, kb, a, ka), Number(a), Number(b);
      && (c.order == AGreater <==> Below(y, x))
      && (c.order == ALess <==> Below(x, y))
      && c.order != NoComp
  {
    NumericPositive(a);
    NumericPositive(b);
    if ka == Denormal || kb == Denormal {
      var x, y := ToExp16(a), ToExp16(b);
      ToExp16Keeps(a);
      ToExp16Keeps(b);
      DifferenceIsOrder(x, x.Exponent16(), y, y.Exponent16());
    } else {
      DifferenceIsOrder(a, a.Exponent(), b, b.Exponent());
    }
  }

  /** The result is the order of the two numbers, unordered exactly for NaNs (among
      them the unsupported formats), and reports a denormal operand exactly when
      a number is compared with one. */
  lemma CompareCorrect(b: Reg, a: Reg)
    ensures var c := CompareRegs(b, TagOf(b), a, TagOf(a));
      && c.nan == (IsNaN(a) || IsNaN(b))
      && (c.order == NoComp <==> c.nan)
      && (c.signalling <==> (IsNaN(a) && !QuietNaN(a)) || (IsNaN(b) && !QuietNaN(b)))
      && (!c.nan ==>
        && (c.order == AGreater <==> Below(Number(b), Number(a)))
        && (c.order == ALess <==> Below(Number(a), Number(b)))
        && (c.order == Equal <==> Number(a) == Number(b))
        && (c.denormal <==> Kind(a, TagOf(a)) == Denormal || Kind(b, TagOf(b)) == Denormal))
  {
    hide Mag, Pow2, SignallingNaN, Unsupported, QuietNaN;
    QuietOrNot(a);
    QuietOrNot(b);
    var ka, kb := Kind(a, TagOf(a)), Kind(b, TagOf(b));
    if Numeric(a) { NumericPositive(a); }
    if Numeric(b) { NumericPositive(b); }
    if Numeric(a) && Numeric(b) { CompareNumericCorrect(b, kb, a, ka); }
    if ka == Zero { ZeroMag(a); }
    if kb == Zero { ZeroMag(b); }
  }

  lemma ZeroMag(r: Reg)
    requires TagOf(r) == Zero
    ensures Mag(r) == 0
  {
    MulMono(0, 0, Pow2(63));
  }

  function Mirror(o: Order): Order {
    match o
    case AGreater => ALess
    case ALess => AGreater
    case _ => o
  }

  lemma CompareMirrors(b: Reg, a: Reg)
    ensures CompareRegs(a, TagOf(a), b, TagOf(b)).order == Mirror(CompareRegs(b, TagOf(b), a, TagOf(a)).order)
  {
    CompareCorrect(a, b);
    CompareCorrect(b, a);
  }

  lemma CompareTransitive(a: Reg, b: Reg, c: Reg)
    requires CompareRegs(b, TagOf(b), a, TagOf(a)).order in {ALess, Equal}
    requires CompareRegs(c, TagOf(c), b, TagOf(b)).order in {ALess, Equal}
    ensures CompareRegs(c, TagOf(c), a, TagOf(a)).order ==
      if CompareRegs(b, TagOf(b), a, TagOf(a)).order == Equal
      then CompareRegs(c, TagOf(c), b, TagOf(b)).order else ALess
  {
    CompareCorrect(b, a);
    CompareCorrect(c, b);
    CompareCorrect(c, a);
  }
}
