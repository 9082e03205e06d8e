/** fprem and fprem1 on the whole state, and that they are exact for exponent differences
    below 64: the remainder of the two registers' values, the sign, and the low three bits
    of the quotient. */
module FpremExact {
  import opened Arith
  import opened Powers
  import opened Rounding
  import opened FpuRegs
  import opened FpuState
  import opened FpuMachine
  import opened Compare
  import opened StackOps
  import opened StackRuns
  import opened StackCode
  import opened Fprem

  // ----- the end of do_fprem -----

  datatype Finished = Finished(r: Reg, tag: Tag, sw: Status)

  /** The exponent after FPU_normalize_nuo. */
  function NormalizedExponent(t: u64, e: int): int
    requires t != 0
  {
    e - LeadingZeros(t)
  }

  predicate Tiny(t: u64, e: int) { t != 0 && NormalizedExponent(t, e) <= EXP_UNDER }

  /** arith_underflow adds this to the exponent when the exception is not masked. */
  const MAGIC: int := 24576

  /** Normalises t * 2^(e - 63) and packs it. A masked denormal is shifted into place
      (FPU_round, which here loses nothing, as DenormalExact shows). */
  function Finish(cw: Control, sw: Status, t: u64, e: int, neg: bool): Finished
    requires -16446 <= e <= EXP_OVER - 1
  {
    if t == 0 then Finished(MakeReg(neg, 0, 0), Zero, sw) else
    var sig: u64, ee := t * Pow2(LeadingZeros(t)), NormalizedExponent(t, e);
    if ee > EXP_UNDER then Finished(MakeReg(neg, ee + EXTENDED_Ebias, sig), Valid, sw)
    else if !cw.masks.underflow then
      Finished(MakeReg(neg, ee + MAGIC + EXTENDED_Ebias, sig), Valid, Exception(cw, sw, Underflow))
    else Finished(MakeReg(neg, 0, ShiftRight(sig, EXP_UNDER + 1 - ee)), Special, sw)
  }

  // ----- fprem and fprem1 as functions -----

  function Difference16(x: Reg, y: Reg): int
    requires Numeric(x) && Numeric(y)
  {
    ToExp16(x).Exponent16() - ToExp16(y).Exponent16()
  }

  function Remainder(x: Reg, y: Reg, nearest: bool): (r: Reduced)
    requires Numeric(x) && Numeric(y) && -1 <= Difference16(x, y) <= 63
    ensures -1 <= r.e <= 0
  {
    ToExp16Keeps(x);
    ToExp16Keeps(y);
    var r := Reduce(ToExp16(x).Sig(), ToExp16(y).Sig(), Difference16(x, y));
    if nearest then Nearer(ToExp16(y).Sig(), r) else r
  }

  function QuotientBits(sw: Status, q: nat): Status {
    SetCC(sw, q / 2 % 2 == 1, false, q % 2 == 1, q / 4 % 2 == 1)
  }

  function ArithInvalid(s: State): State {
    var s1 := s.Raise(Invalid);
    if s.cw.masks.invalid then s1.Put(0, CONST_QNaN, Special) else s1
  }

  /** setcc(0) */
  function NoConditions(s: State): State { s.(sw := SetCC(s.sw, false, false, false, false)) }

  function AfterDenormal(s: State, denormal: bool): State {
    if denormal then s.(sw := DenormalOperand(s.cw, s.sw)) else s
  }

  predicate Numbers(s: State) { s.Tagi(0) != Empty && s.Tagi(1) != Empty && Numeric(s.St(0)) && Numeric(s.St(1)) }

  predicate AnyDenormal(s: State) { Kind(s.St(0), s.Tagi(0)) == Denormal || Kind(s.St(1), s.Tagi(1)) == Denormal }

  /** Both operands are numbers and no unmasked exception stops the instruction. */
  function FpremNumbers(s: State, nearest: bool): State
    requires Numbers(s)
  {
    var x, y := s.St(0), s.St(1);
    if Difference16(x, y) < -1 then NoConditions(s) else
    if Difference16(x, y) >= 64 then PackPartial(s) else
    ToExp16Keeps(y);
    ExponentBound(y);
    Pack(s, Remainder(x, y, nearest), ToExp16(y).Exponent16())
  }

  /** Puts the remainder in st(0), where e is the exponent of the divisor. */
  function Pack(s: State, r: Reduced, e: int): State
    requires -16445 <= e + 1 && -1 <= r.e <= 0 && e + r.e >= -16446 && e < EXP_OVER
  {
    var f := Finish(s.cw, QuotientBits(s.sw, r.q), r.t, e + r.e, s.St(0).Neg() != r.flip);
    s.(sw := f.sw).Put(0, f.r, f.tag)
  }

  lemma ExponentBound(y: Reg)
    requires Numeric(y)
    ensures ToExp16(y).Exponent16() <= EXP_OVER - 1
  {
  }

  // ----- exponent differences of 64 and more -----

  /** How many powers of two one step takes off. */
  function StepSize(d: int): (n: nat)
    requires d >= 64
    ensures 32 <= n <= 63
  {
    d % 0x20 + 32
  }

  function PartialOf(x: Reg, y: Reg): u64
    requires Numeric(x) && Numeric(y) && Difference16(x, y) >= 64
  {
    ToExp16Keeps(x);
    ToExp16Keeps(y);
    Partial(ToExp16(x).Sig(), ToExp16(y).Sig(), StepSize(Difference16(x, y)))
  }

  function PartialExponent(x: Reg, y: Reg): (e: int)
    requires Numeric(x) && Numeric(y) && Difference16(x, y) >= 64
    ensures -16445 <= e <= EXP_OVER - 1
  {
    ToExp16Keeps(y);
    ExponentBound(x);
    ToExp16(x).Exponent16() - StepSize(Difference16(x, y))
  }

  /** C2 alone: the reduction is not complete. */
  function Unfinished(sw: Status): Status { SetCC(sw, false, true, false, false) }

  /** A remainder of zero loses its sign: setsign is applied to the local copy. */
  function PackPartial(s: State): State
    requires Numbers(s) && Difference16(s.St(0), s.St(1)) >= 64
  {
    var x, y := s.St(0), s.St(1);
    if PartialOf(x, y) == 0 then s.(sw := Unfinished(s.sw)).Put(0, CONST_Z, Zero)
    else
      var f := Finish(s.cw, Unfinished(s.sw), PartialOf(x, y), PartialExponent(x, y), x.Neg());
      s.(sw := f.sw).Put(0, f.r, f.tag)
  }

  // ----- NaNs (real_2op_NaN) -----

  predicate AnyUnsupported(a: Reg, b: Reg) { (IsNaN(a) && Unsupported(a)) || (IsNaN(b) && Unsupported(b)) }

  predicate QuietBitSet(r: Reg) { r.sigh / 0x4000_0000 % 2 == 1 }

  predicate AnySignalling(a: Reg, b: Reg) { (IsNaN(a) && !QuietBitSet(a)) || (IsNaN(b) && !QuietBitSet(b)) }

  /** Of two NaNs the one with the larger significand, and st(1) when they are equal. */
  function Survivor(a: Reg, b: Reg): Reg {
    if !IsNaN(a) then b else if IsNaN(b) && b.Sig() >= a.Sig() then b else a
  }

  function WithQuietBit(r: Reg): Reg {
    if QuietBitSet(r) then r else QuietBitFits(r.sigh); r.(sigh := r.sigh + 0x4000_0000)
  }

  lemma QuietBitFits(sigh: u32)
    ensures sigh / 0x4000_0000 % 2 == 0 ==> sigh + 0x4000_0000 < TWO32
  {
  }

  function TwoOpNaN(s: State): State {
    var a, b := s.St(0), s.St(1);
    if AnyUnsupported(a, b) then (if s.cw.masks.invalid then s.Put(0, CONST_QNaN, Special) else s).Raise(Invalid)
    else if !AnySignalling(a, b) then s.Put(0, Survivor(a, b), Special)
    else (if s.cw.masks.invalid then s.Put(0, WithQuietBit(Survivor(a, b)), Special) else s).Raise(Invalid)
  }

  function DoFpremSpec(s: State, nearest: bool): State {
    var k0, k1 := Kind(s.St(0), s.Tagi(0)), Kind(s.St(1), s.Tagi(1));
    if s.Tagi(0) == Empty || s.Tagi(1) == Empty then StackUnderflow(s, 0)
    else if k0 == NaN || k1 == NaN then TwoOpNaN(s)
    else if k1 == Zero || k0 == Infinity then ArithInvalid(s)
    else if AnyDenormal(s) && !s.cw.masks.denormOp then AfterDenormal(s, true)
    else if Numbers(s) then FpremNumbers(AfterDenormal(s, AnyDenormal(s)), nearest)
    else NoConditions(AfterDenormal(s, AnyDenormal(s)))
  }

  // ----- values -----

  /** The operands of Reduce in the unit of Mag: the divisor's exponent gives the
      unit G. */
  lemma Aligned(x: Reg, y: Reg, n: nat)
    requires Numeric(x) && Numeric(y) && n == Difference16(x, y)
    ensures var e1 := ToExp16(y).Exponent16();
      && e1 >= -16445
      && Mag(y) == ToExp16(y).Sig() * Pow2(e1 + 16445)
      && Mag(x) == ToExp16(x).Sig() * Pow2(n) * Pow2(e1 + 16445)
  {
    ToExp16Keeps(x);
    ToExp16Keeps(y);
    Pow2Add(n, ToExp16(y).Exponent16() + 16445);
    MulAssoc(ToExp16(x).Sig(), Pow2(n), Pow2(ToExp16(y).Exponent16() + 16445));
  }

  lemma AlignedMinusOne(x: Reg, y: Reg)
    requires Numeric(x) && Numeric(y) && Difference16(x, y) == -1
    ensures var e0 := ToExp16(x).Exponent16();
      && e0 >= -16445
      && Mag(x) == ToExp16(x).Sig() * Pow2(e0 + 16445)
      && Mag(y) == 2 * ToExp16(y).Sig() * Pow2(e0 + 16445)
  {
    ToExp16Keeps(x);
    ToExp16Keeps(y);
    var e0 := ToExp16(x).Exponent16();
    MulAssoc(ToExp16(y).Sig(), 2, Pow2(e0 + 16445));
  }

  lemma ScaledNearest(x: nat, y: nat, k: nat, t: nat, q: nat, flip: bool)
    requires y > 0 && k > 0 && IsNearest(x, y, t, q, flip)
    ensures y * k > 0 && IsNearest(x * k, y * k, t * k, q, flip)
  {
    RoundMagScale(RND, false, x, y, k);
    MulAssoc(q, y, k);
    MulDistribute(x, q * y, k);
    MulDistribute(q * y, x, k);
    if q * y > x { MulStrict(x, q * y, k); } else { MulMono(q * y, x, k); }
  }

  lemma ReduceScaled(s0: Normal, s1: Normal, n: nat, g: nat)
    requires n <= 63 && g > 0
    ensures s1 * g > 0
    ensures var r, x := Reduce(s0, s1, n), s0 * Pow2(n);
      && r.e == 0 && !r.flip && r.t * g == x * g % (s1 * g) && r.q == x * g / (s1 * g)
  {
    ReduceCorrect(s0, s1, n);
    DivModScale(s0 * Pow2(n), s1, g);
  }

  lemma NearerScaled(s0: Normal, s1: Normal, n: nat, g: nat, x: nat, y: nat)
    requires n <= 63 && g > 0 && y > 0 && x == s0 * Pow2(n) * g && y == s1 * g
    ensures var r := Nearer(s1, Reduce(s0, s1, n)); r.e == 0 && IsNearest(x, y, r.t * g, r.q, r.flip)
  {
    var r := Nearer(s1, Reduce(s0, s1, n));
    ReduceCorrect(s0, s1, n);
    NearerCorrect(s1, Reduce(s0, s1, n), s0 * Pow2(n));
    ScaledNearest(s0 * Pow2(n), s1, g, r.t, r.q, r.flip);
  }

  lemma AlignedRemainder(x: Reg, y: Reg, n: nat)
    requires Numeric(x) && Numeric(y) && n == Difference16(x, y) <= 63 && Mag(y) > 0
    ensures var r, e := Remainder(x, y, false), ToExp16(y).Exponent16();
      && e + r.e >= -16445
      && MagOf(r.t, e + r.e) == Mag(x) % Mag(y) && r.q == Mag(x) / Mag(y) && !r.flip
  {
    Aligned(x, y, n);
    ToExp16Keeps(x);
    ToExp16Keeps(y);
    ReduceScaled(ToExp16(x).Sig(), ToExp16(y).Sig(), n, Pow2(ToExp16(y).Exponent16() + 16445));
  }

  lemma SmallerRemainder(x: Reg, y: Reg)
    requires Numeric(x) && Numeric(y) && Difference16(x, y) == -1 && Mag(y) > 0
    ensures var r, e := Remainder(x, y, false), ToExp16(y).Exponent16();
      && e + r.e >= -16445
      && MagOf(r.t, e + r.e) == Mag(x) % Mag(y) && r.q == Mag(x) / Mag(y) && !r.flip
  {
    AlignedMinusOne(x, y);
    ToExp16Keeps(x);
    ToExp16Keeps(y);
    MulStrict(ToExp16(x).Sig(), 2 * ToExp16(y).Sig(), Pow2(ToExp16(x).Exponent16() + 16445));
    ModSmall(Mag(x), Mag(y));
  }

  /** With both operands numbers and an exponent difference of -1 to 63, the reduction
      leaves the exact remainder of truncating division. */
  lemma RemainderExact(x: Reg, y: Reg)
    requires Numeric(x) && Numeric(y) && -1 <= Difference16(x, y) <= 63
    ensures Mag(y) > 0
    ensures var r, e := Remainder(x, y, false), ToExp16(y).Exponent16();
      && e + r.e >= -16445
      && MagOf(r.t, e + r.e) == Mag(x) % Mag(y) && r.q == Mag(x) / Mag(y) && !r.flip
  {
    NumericPositive(y);
    if Difference16(x, y) >= 0 { AlignedRemainder(x, y, Difference16(x, y)); } else { SmallerRemainder(x, y); }
  }

  predicate CarryLost(x: Reg, y: Reg)
    requires Numeric(x) && Numeric(y)
  {
    Difference16(x, y) == -1 && 2 * ToExp16(y).Sig() - ToExp16(x).Sig() >= TWO64
  }

  lemma AlignedNearest(x: Reg, y: Reg, n: nat)
    requires Numeric(x) && Numeric(y) && n == Difference16(x, y) <= 63 && Mag(y) > 0
    ensures var r, e := Remainder(x, y, true), ToExp16(y).Exponent16();
      e + r.e >= -16445 && IsNearest(Mag(x), Mag(y), MagOf(r.t, e + r.e), r.q, r.flip)
  {
    Aligned(x, y, n);
    ToExp16Keeps(x);
    ToExp16Keeps(y);
    NearerScaled(ToExp16(x).Sig(), ToExp16(y).Sig(), n, Pow2(ToExp16(y).Exponent16() + 16445), Mag(x), Mag(y));
  }

  lemma SmallerNearest(x: Reg, y: Reg)
    requires Numeric(x) && Numeric(y) && Difference16(x, y) == -1 && Mag(y) > 0
    ensures var r, e := Remainder(x, y, true), ToExp16(y).Exponent16();
      && e + r.e >= -16445
      && (IsNearest(Mag(x), Mag(y), MagOf(r.t, e + r.e), r.q, r.flip) <==> !CarryLost(x, y))
  {
    AlignedMinusOne(x, y);
    ToExp16Keeps(x);
    ToExp16Keeps(y);
    var r, g := Remainder(x, y, true), Pow2(ToExp16(x).Exponent16() + 16445);
    NearerAtMinusOne(ToExp16(x).Sig(), ToExp16(y).Sig());
    if CarryLost(x, y) {
      RoundMagScale(RND, false, ToExp16(x).Sig(), 2 * ToExp16(y).Sig(), g);
      WrongQuotient(ToExp16(x).Sig(), ToExp16(y).Sig());
    } else {
      ScaledNearest(ToExp16(x).Sig(), 2 * ToExp16(y).Sig(), g, r.t, r.q, r.flip);
    }
  }

  /** fprem1 reduces by the nearest multiple of the divisor, ties to the even one,
      exactly when the shift of the divisor loses no carry that matters; it never
      does for exponent differences of 0 to 63. */
  lemma NearestExactIff(x: Reg, y: Reg)
    requires Numeric(x) && Numeric(y) && -1 <= Difference16(x, y) <= 63
    ensures Mag(y) > 0
    ensures var r, e := Remainder(x, y, true), ToExp16(y).Exponent16();
      && e + r.e >= -16445
      && (IsNearest(Mag(x), Mag(y), MagOf(r.t, e + r.e), r.q, r.flip) <==> !CarryLost(x, y))
  {
    NumericPositive(y);
    if Difference16(x, y) >= 0 { AlignedNearest(x, y, Difference16(x, y)); } else { SmallerNearest(x, y); }
  }

  /** With a lost carry the quotient comes out as 1 instead of 0. */
  lemma WrongQuotient(s0: Normal, s1: Normal)
    requires 2 * s1 - s0 >= TWO64
    ensures Nearer(s1, Reduce(s0, s1, -1)) == Reduced(2 * s1 - s0 - TWO64, -1, 1, true)
    ensures RoundMag(RND, false, s0, 2 * s1) == 0
  {
    var x := 2 * s1 - s0;
    ModSmall(s0, 2 * s1);
    ModEqual(s1 * 2, s1 * 2 - TWO64, 1, TWO64);
    ModSmall(s1 * 2 - TWO64, TWO64);
    ModSmall(x - TWO64, TWO64);
  }

  /** Such operands: one half, and the largest number below two. */
  lemma Fprem1LosesCarry()
    ensures var x, y := Reg(0, BIT31, 0x3ffe), Reg(0xffff_ffff, 0xffff_ffff, 0x3fff);
      && Numeric(x) && Numeric(y) && Difference16(x, y) == -1 && CarryLost(x, y)
  {
  }

  lemma BelowHalf(x: nat, y: nat)
    requires 2 * x < y
    ensures x % y == x && x / y == 0 && IsNearest(x, y, x, 0, false)
  {
    ModSmall(x, y);
  }

  /** A smaller exponent difference leaves the dividend, which is then below half the
      divisor. */
  lemma FarSmaller(x: Reg, y: Reg)
    requires Numeric(x) && Numeric(y) && Difference16(x, y) < -1
    ensures 2 * Mag(x) < Mag(y)
  {
    ToExp16Keeps(x);
    ToExp16Keeps(y);
    var e0 := ToExp16(x).Exponent16();
    MagOrder(ToExp16(x).Sig(), e0 + 1, ToExp16(y).Sig(), ToExp16(y).Exponent16());
    DoubleMag(ToExp16(x).Sig(), e0);
  }

  lemma DoubleMag(s: nat, e: int)
    requires e >= -16445
    ensures MagOf(s, e + 1) == 2 * MagOf(s, e)
  {
    MulAssoc(s, 2, Pow2(e + 16445));
  }

  // ----- packing -----

  lemma PackedNormal(neg: bool, e: int, sig: Normal)
    requires EXP_UNDER < e < EXP_OVER
    ensures var r := MakeReg(neg, e + EXTENDED_Ebias, sig);
      r.Neg() == neg && TagOf(r) == Valid && Mag(r) == MagOf(sig, e)
  {
    Words(MakeReg(neg, e + EXTENDED_Ebias, sig));
  }

  lemma PackedSmall(neg: bool, sig: u64)
    requires sig < TWO63
    ensures var r := MakeReg(neg, 0, sig);
      r.Neg() == neg && TagOf(r) == (if sig == 0 then Zero else Special) && Mag(r) == sig * Pow2(63)
  {
    Words(MakeReg(neg, 0, sig));
  }

  lemma ZeroMag(e: int)
    requires e >= -16445
    ensures MagOf(0, e) == 0
  {
    MulMono(0, 0, Pow2(e + 16445));
  }

  /** The register that Finish makes holds t * 2^(e - 63), with the tag of its
      contents; an unmasked underflow scales it by 2^24576. */
  lemma FinishExact(cw: Control, sw: Status, t: u64, e: int, neg: bool)
    requires -16445 <= e <= EXP_OVER - 1 && MagOf(t, e) % Pow2(63) == 0
    ensures var f := Finish(cw, sw, t, e, neg);
      && f.r.Neg() == neg && f.tag == TagOf(f.r)
      && Mag(f.r) == MagOf(t, e) * (if Tiny(t, e) && !cw.masks.underflow then Pow2(MAGIC) else 1)
  {
    hide Pow2, LeadingZeros, MagOf, Mag, TagOf;
    if t == 0 {
      PackedSmall(neg, 0);
      ZeroMag(e);
    } else if !Tiny(t, e) {
      SmallPowers();
      NormalizedMagIs(t, e, 0);
      PackedNormal(neg, NormalizedExponent(t, e), t * Pow2(LeadingZeros(t)));
    } else if cw.masks.underflow {
      DenormalExact(t, e);
      PackedSmall(neg, ShiftRight(t * Pow2(LeadingZeros(t)), EXP_UNDER + 1 - NormalizedExponent(t, e)));
    } else {
      NormalizedMagIs(t, e, MAGIC);
      PackedNormal(neg, NormalizedExponent(t, e) + MAGIC, t * Pow2(LeadingZeros(t)));
    }
  }

  lemma NormalizedMagIs(t: u64, e: int, up: nat)
    requires t != 0 && e >= -16445 && NormalizedExponent(t, e) + up > EXP_UNDER
    ensures MagOf(t * Pow2(LeadingZeros(t)), NormalizedExponent(t, e) + up) == MagOf(t, e) * Pow2(up)
  {
    hide Pow2, LeadingZeros;
    var n := LeadingZeros(t);
    Pow2Add(n, e - n + up + 16445);
    MulAssoc(t, Pow2(n), Pow2(e - n + up + 16445));
    Pow2Add(e + 16445, up);
    MulAssoc(t, Pow2(e + 16445), Pow2(up));
  }

  lemma CrossCancel(t: nat, m: nat, x: nat, y: nat, p: nat, z: nat, w: nat)
    requires t * y == m * p && p * x == w && z * y == w && y > 0
    ensures t * x == m * z
  {
    SwapFactors(t, x, y);
    MulAssoc(m, p, x);
    MulAssoc(m, z, y);
    MulCancel(t * x, m * z, y);
  }

  lemma SplitPow2(b: nat, c: nat, d: nat)
    requires b == c + d
    ensures Pow2(c) * Pow2(d) == Pow2(b)
  {
    Pow2Add(c, d);
  }

  lemma DenormalScale(t: nat, m: nat, n: nat, a: nat, p: nat, k: nat)
    requires t * Pow2(a) == m * Pow2(p) && k + a == p + n
    ensures t * Pow2(n) == m * Pow2(k)
  {
    var b := p + n;
    SplitPow2(b, p, n);
    SplitPow2(b, k, a);
    CrossCancel(t, m, Pow2(n), Pow2(a), Pow2(p), Pow2(k), Pow2(b));
  }

  lemma SwapFactors(t: int, x: int, y: int)
    ensures t * x * y == t * y * x
  {
  }

  lemma MultipleRange(s: u64, m: nat, k: nat)
    requires s == m * Pow2(k) && k >= 1 && s > 0
    ensures 0 < m < TWO63 && s % Pow2(k) == 0 && s / Pow2(k) == m
  {
    DivModUnique(s, m, 0, Pow2(k));
    Pow2Mono(1, k);
    MulMonoRight(m, 2, Pow2(k));
    if m == 0 { MulMono(0, 0, Pow2(k)); }
  }

  lemma ExactDivision(x: nat, p: nat)
    requires p > 0 && x % p == 0
    ensures x / p * p == x
  {
  }

  lemma DenormalParts(t: u64, e: int, m: nat, k: int)
    requires t != 0 && e >= -16445 && MagOf(t, e) == m * Pow2(63)
    requires k == EXP_UNDER + 1 - NormalizedExponent(t, e) && k >= 1
    ensures var sig: u64 := t * Pow2(LeadingZeros(t));
      sig % Pow2(k) == 0 && ShiftRight(sig, k) == m && 0 < m < TWO63
  {
    hide Pow2, LeadingZeros;
    var n := LeadingZeros(t);
    DenormalScale(t, m, n, e + 16445, 63, k);
    MultipleRange(t * Pow2(n), m, k);
  }

  /** Shifting a tiny remainder into place as a denormal shifts out zeros only. */
  lemma DenormalExact(t: u64, e: int)
    requires t != 0 && e >= -16445 && Tiny(t, e) && MagOf(t, e) % Pow2(63) == 0
    ensures var sig: u64, k := t * Pow2(LeadingZeros(t)), EXP_UNDER + 1 - NormalizedExponent(t, e);
      && k >= 1 && sig % Pow2(k) == 0 && 0 < ShiftRight(sig, k) < TWO63
      && ShiftRight(sig, k) * Pow2(63) == MagOf(t, e)
  {
    hide Pow2, LeadingZeros;
    var p := Pow2(63);
    ExactDivision(MagOf(t, e), p);
    DenormalParts(t, e, MagOf(t, e) / p, EXP_UNDER + 1 - NormalizedExponent(t, e));
  }

  // ----- the whole instruction -----

  lemma MultiplesReduce(i: nat, j: nat, p: nat, q: nat)
    requires p > 0
    ensures (i * p - q * (j * p)) % p == 0 && Dist(i * p, q * (j * p)) % p == 0
  {
    var k := i - q * j;
    MulAssoc(q, j, p);
    MulDistribute(i, q * j, p);
    assert i * p - q * (j * p) == k * p;
    DivModUnique(k * p, k, 0, p);
    assert 0 - k * p == (0 - k) * p;
    DivModUnique(0 - k * p, 0 - k, 0, p);
  }

  lemma MultiplesDivide(x: nat, y: nat, i: nat, j: nat, p: nat)
    requires p > 0 && y > 0 && x == i * p && y == j * p
    ensures x % y % p == 0
  {
    MultiplesReduce(i, j, p, x / y);
    assert x % y == x - x / y * y;
  }

  lemma MultiplesNearest(x: nat, y: nat, i: nat, j: nat, p: nat, t: nat, q: nat, flip: bool)
    requires p > 0 && y > 0 && x == i * p && y == j * p && IsNearest(x, y, t, q, flip)
    ensures t % p == 0
  {
    MultiplesReduce(i, j, p, q);
  }

  /** Mag in units of the smallest denormal. */
  function Units(r: Reg): nat { r.Sig() * Pow2((if r.Field() == 0 then 1 else r.Field()) - 1) }

  lemma MagIsMultiple(r: Reg)
    ensures Mag(r) == Units(r) * Pow2(63)
  {
    var k, p := (if r.Field() == 0 then 1 else r.Field()) - 1, 63;
    Pow2Add(k, p);
    MulAssoc(r.Sig(), Pow2(k), Pow2(p));
  }

  /** Every register is a multiple of the smallest denormal, and so is a remainder. */
  lemma RemainderIsMultiple(x: Reg, y: Reg, p: nat)
    requires Mag(y) > 0 && p == Pow2(63)
    ensures Mag(x) % Mag(y) % p == 0
  {
    MagIsMultiple(x);
    MagIsMultiple(y);
    MultiplesDivide(Mag(x), Mag(y), Units(x), Units(y), p);
  }

  lemma NearestIsMultiple(x: Reg, y: Reg, p: nat, t: nat, q: nat, flip: bool)
    requires Mag(y) > 0 && p == Pow2(63) && IsNearest(Mag(x), Mag(y), t, q, flip)
    ensures t % p == 0
  {
    MagIsMultiple(x);
    MagIsMultiple(y);
    MultiplesNearest(Mag(x), Mag(y), Units(x), Units(y), p, t, q, flip);
  }

  /** Magnitudes below that of the smallest normal number, 2^-16382. */
  ghost predicate TinyMagnitude(t: int) { 0 < t < Pow2(126) }

  /** An unmasked underflow scales the remainder t; an exponent difference below -1
      never gets that far. */
  ghost predicate Scales(s: State, t: int) {
    Numbers(s) && Difference16(s.St(0), s.St(1)) >= -1 && !s.cw.masks.underflow && TinyMagnitude(t)
  }

  /** What is left when y is subtracted q times from x: t, perhaps scaled, with the
      sign of x, or the opposite one when q * y is the larger. */
  ghost predicate Leaves(s: State, s': State, t: int, q: int, flip: bool, scaled: bool) {
    var r := s'.St(0);
    && r.Neg() == (s.St(0).Neg() != flip) && s'.Tagi(0) == TagOf(r)
    && Mag(r) == (if scaled then t * Pow2(MAGIC) else t)
    && s'.sw.c0 == (q / 4 % 2 == 1) && s'.sw.c3 == (q / 2 % 2 == 1) && s'.sw.c1 == (q % 2 == 1) && !s'.sw.c2
    && s'.top == s.top && (forall j: nat :: j < 8 && j != s.Phys(0) ==> Same(s, s', j))
  }

  lemma UnderflowKeepsConditions(cw: Control, sw: Status)
    ensures var x := Exception(cw, sw, Underflow); x.c0 == sw.c0 && x.c1 == sw.c1 && x.c2 == sw.c2 && x.c3 == sw.c3
  {
    hide SomeUnmasked;
  }

  lemma UnderflowConditions(cw: Control, sw: Status, t: u64, e: int, neg: bool, q: nat)
    requires -16446 <= e <= EXP_OVER - 1
    ensures var sw' := Finish(cw, QuotientBits(sw, q), t, e, neg).sw;
      sw'.c0 == (q / 4 % 2 == 1) && sw'.c3 == (q / 2 % 2 == 1) && sw'.c1 == (q % 2 == 1) && !sw'.c2
  {
    hide Pow2, LeadingZeros, Exception, MakeReg, ShiftRight;
    UnderflowKeepsConditions(cw, QuotientBits(sw, q));
  }

  lemma Shifted63(t: nat, n: nat, k: nat)
    requires TWO63 <= t * Pow2(n) < TWO64
    ensures t * Pow2(k) < Pow2(126) <==> k < n + 63
  {
    hide Pow2;
    Pow2Values();
    Pow2Add(63, 63);
    Pow2Add(64, 62);
    if k < n + 63 {
      Pow2Mono(k, n + 62);
      MulMonoRight(t, Pow2(k), Pow2(n + 62));
      Pow2Add(n, 62);
      MulAssoc(t, Pow2(n), Pow2(62));
      MulStrict(t * Pow2(n), TWO64, Pow2(62));
    } else {
      Pow2Mono(n + 63, k);
      MulMonoRight(t, Pow2(n + 63), Pow2(k));
      Pow2Add(n, 63);
      MulAssoc(t, Pow2(n), Pow2(63));
      MulMono(TWO63, t * Pow2(n), Pow2(63));
    }
  }

  lemma TinyIff(t: u64, e: int)
    requires e >= -16445
    ensures Tiny(t, e) <==> TinyMagnitude(MagOf(t, e))
  {
    hide Pow2, LeadingZeros;
    if t == 0 {
      ZeroMag(e);
    } else {
      Shifted63(t, LeadingZeros(t), e + 16445);
      MulMonoRight(t, 1, Pow2(e + 16445));
    }
  }

  lemma PackLeaves(s: State, r: Reduced, e: int, m: nat)
    requires -1 <= r.e <= 0 && -16445 <= e + r.e && e < EXP_OVER && MagOf(r.t, e + r.e) == m && m % Pow2(63) == 0
    ensures Leaves(s, Pack(s, r, e), m, r.q, r.flip, !s.cw.masks.underflow && TinyMagnitude(m))
  {
    hide Pow2, LeadingZeros, MagOf, Mag, TagOf, Finish, Tiny;
    var neg := s.St(0).Neg() != r.flip;
    TinyIff(r.t, e + r.e);
    var f := Finish(s.cw, QuotientBits(s.sw, r.q), r.t, e + r.e, neg);
    FinishExact(s.cw, QuotientBits(s.sw, r.q), r.t, e + r.e, neg);
    UnderflowConditions(s.cw, s.sw, r.t, e + r.e, neg, r.q);
    var s1 := s.(sw := f.sw);
    PutBack(s1, f.r, f.tag);
    forall j: nat | j < 8 && j != s.Phys(0) ensures Same(s, s1.Put(0, f.r, f.tag), j) {
      PutSame(s1, 0, f.r, f.tag, j);
    }
  }

  lemma PutBack(s: State, r: Reg, t: Tag)
    requires StackTag(t)
    ensures s.Put(0, r, t).St(0) == r && s.Put(0, r, t).Tagi(0) == t
  {
    TagBitsBack(t);
    GetSetTag(s.tw, s.Phys(0), s.Phys(0), t);
  }

  lemma UnchangedLeaves(s: State)
    requires s.Tagi(0) == TagOf(s.St(0))
    ensures Leaves(s, NoConditions(s), Mag(s.St(0)), 0, false, false)
  {
  }

  /** s' holds x - trunc(x / y) * y, for the numbers x and y in st(0) and st(1) of s. */
  ghost predicate TruncatedRemainder(s: State, s': State) {
    Truncates(s, s', Mag(s.St(0)), Mag(s.St(1)))
  }

  ghost predicate Truncates(s: State, s': State, x: nat, y: nat) {
    y > 0 && Leaves(s, s', x % y, x / y, false, Scales(s, x % y))
  }

  /** s' holds x minus the nearest multiple of y, the even one of two. */
  ghost predicate NearestRemainder(s: State, s': State) {
    var x, y := Mag(s.St(0)), Mag(s.St(1));
    && y > 0
    && var q := RoundMag(RND, false, x, y);
    && Leaves(s, s', Dist(x, q * y), q, q * y > x, Scales(s, Dist(x, q * y)))
    && 2 * Dist(x, q * y) <= y
  }

  lemma FarRemainder(s: State)
    requires Inv(s) && Numbers(s) && Difference16(s.St(0), s.St(1)) < -1
    ensures TruncatedRemainder(s, NoConditions(s)) && NearestRemainder(s, NoConditions(s))
  {
    hide Pow2, MagOf, Mag, TinyMagnitude, RoundMag;
    TagTrue(s, 0);
    FarSmaller(s.St(0), s.St(1));
    BelowHalf(Mag(s.St(0)), Mag(s.St(1)));
    UnchangedLeaves(s);
  }

  lemma NearState(s: State, nearest: bool)
    requires Numbers(s) && -1 <= Difference16(s.St(0), s.St(1)) < 64
    ensures var e := ToExp16(s.St(1)).Exponent16();
      && -16445 <= e < EXP_OVER
      && FpremNumbers(s, nearest) == Pack(s, Remainder(s.St(0), s.St(1), nearest), e)
  {
    ToExp16Keeps(s.St(1));
    ExponentBound(s.St(1));
  }

  lemma NearTruncated(s: State)
    requires Inv(s) && Numbers(s) && -1 <= Difference16(s.St(0), s.St(1)) < 64
    ensures TruncatedRemainder(s, FpremNumbers(s, false))
  {
    hide Pow2, MagOf, Mag, TinyMagnitude, RoundMag;
    var x, y := s.St(0), s.St(1);
    RemainderExact(x, y);
    RemainderIsMultiple(x, y, Pow2(63));
    NearState(s, false);
    PackLeaves(s, Remainder(x, y, false), ToExp16(y).Exponent16(), Mag(x) % Mag(y));
  }

  lemma NumbersTruncated(s: State)
    requires Inv(s) && Numbers(s) && Difference16(s.St(0), s.St(1)) < 64
    ensures TruncatedRemainder(s, FpremNumbers(s, false))
  {
    if Difference16(s.St(0), s.St(1)) < -1 { FarRemainder(s); } else { NearTruncated(s); }
  }

  lemma NearestLeft(s: State, s': State, t: nat, q: nat, flip: bool)
    requires Mag(s.St(1)) > 0 && IsNearest(Mag(s.St(0)), Mag(s.St(1)), t, q, flip)
    requires Leaves(s, s', t, q, flip, Scales(s, t))
    ensures NearestRemainder(s, s')
  {
    hide Pow2, MagOf, Mag, TinyMagnitude, RoundMag;
    NearestHalf(Mag(s.St(0)), Mag(s.St(1)), t, q, flip);
  }

  lemma NearNearest(s: State)
    requires Inv(s) && Numbers(s) && -1 <= Difference16(s.St(0), s.St(1)) < 64 && !CarryLost(s.St(0), s.St(1))
    ensures NearestRemainder(s, FpremNumbers(s, true))
  {
    hide Pow2, MagOf, Mag, TinyMagnitude, RoundMag;
    var x, y := s.St(0), s.St(1);
    NearestExactIff(x, y);
    var r, e := Remainder(x, y, true), ToExp16(y).Exponent16();
    var m := MagOf(r.t, e + r.e);
    NearestIsMultiple(x, y, Pow2(63), m, r.q, r.flip);
    NearState(s, true);
    PackLeaves(s, r, e, m);
    NearestLeft(s, Pack(s, r, e), m, r.q, r.flip);
  }

  lemma NumbersNearest(s: State)
    requires Inv(s) && Numbers(s) && Difference16(s.St(0), s.St(1)) < 64 && !CarryLost(s.St(0), s.St(1))
    ensures NearestRemainder(s, FpremNumbers(s, true))
  {
    if Difference16(s.St(0), s.St(1)) < -1 { FarRemainder(s); } else { NearNearest(s); }
  }

  lemma LeavesAfterDenormal(s: State, s': State, t: int, q: int, flip: bool, scaled: bool)
    requires Leaves(AfterDenormal(s, AnyDenormal(s)), s', t, q, flip, scaled)
    ensures Leaves(s, s', t, q, flip, scaled)
  {
    hide Pow2, MagOf, Mag, TinyMagnitude, RoundMag;
    var s1 := AfterDenormal(s, AnyDenormal(s));
    forall j: nat | j < 8 && j != s.Phys(0) ensures Same(s, s', j) {
      assert Same(s1, s', j);
    }
  }

  lemma TruncatedAfterDenormal(s: State, s': State)
    requires TruncatedRemainder(AfterDenormal(s, AnyDenormal(s)), s')
    ensures TruncatedRemainder(s, s')
  {
    SameOperands(s);
    TruncatesAfterDenormal(s, s', Mag(s.St(0)), Mag(s.St(1)));
  }

  lemma TruncatesAfterDenormal(s: State, s': State, x: nat, y: nat)
    requires Truncates(AfterDenormal(s, AnyDenormal(s)), s', x, y)
    ensures Truncates(s, s', x, y)
  {
    hide Pow2, MagOf, Mag, TinyMagnitude, RoundMag;
    SameScale(s, x % y);
    LeavesAfterDenormal(s, s', x % y, x / y, false, Scales(s, x % y));
  }

  lemma NearestAfterDenormal(s: State, s': State)
    requires NearestRemainder(AfterDenormal(s, AnyDenormal(s)), s')
    ensures NearestRemainder(s, s')
  {
    hide Pow2, MagOf, Mag, TinyMagnitude, RoundMag;
    SameOperands(s);
    var x, y := Mag(s.St(0)), Mag(s.St(1));
    var q := RoundMag(RND, false, x, y);
    SameScale(s, Dist(x, q * y));
    LeavesAfterDenormal(s, s', Dist(x, q * y), q, q * y > x, Scales(s, Dist(x, q * y)));
  }

  lemma SameOperands(s: State)
    ensures var s1 := AfterDenormal(s, AnyDenormal(s)); s1.St(0) == s.St(0) && s1.St(1) == s.St(1)
  {
  }

  lemma SameScale(s: State, t: int)
    ensures Scales(AfterDenormal(s, AnyDenormal(s)), t) == Scales(s, t)
  {
    hide Pow2, Numeric, Difference16, DenormalOperand, TinyMagnitude;
    SameOperands(s);
  }

  lemma AfterDenormalKeeps(s: State, denormal: bool)
    requires Inv(s)
    ensures Inv(AfterDenormal(s, denormal))
  {
    RaisingKeepsSummary(s.cw, s.sw, true);
  }

  predicate GoesOn(s: State) {
    Numbers(s) && Difference16(s.St(0), s.St(1)) < 64 && (AnyDenormal(s) ==> s.cw.masks.denormOp)
  }

  lemma GoingOn(s: State, nearest: bool)
    requires Inv(s) && GoesOn(s)
    ensures var s1 := AfterDenormal(s, AnyDenormal(s));
      && Numbers(s1) && s1.St(0) == s.St(0) && s1.St(1) == s.St(1)
      && DoFpremSpec(s, nearest) == FpremNumbers(s1, nearest)
  {
    hide Kind, TagOf, Numeric, IsNaN, Difference16, FpremNumbers, DenormalOperand, GetTag, StackUnderflow, SummaryTrue;
    TagTrue(s, 0);
    TagTrue(s, 1);
    NumberKind(s.St(0));
    NumberKind(s.St(1));
  }

  lemma NumberKind(r: Reg)
    requires Numeric(r)
    ensures (Kind(r, TagOf(r)) == Valid || Kind(r, TagOf(r)) == Denormal) && !IsNaN(r)
  {
  }

  /** fprem leaves exactly x - trunc(x / y) * y, with the sign of x and a magnitude
      below that of y, and the low three bits of the quotient in C0, C3 and C1. */
  lemma FpremExactly(s: State)
    requires Inv(s) && GoesOn(s)
    ensures TruncatedRemainder(s, DoFpremSpec(s, false))
  {
    var s1 := AfterDenormal(s, AnyDenormal(s));
    AfterDenormalKeeps(s, AnyDenormal(s));
    GoingOn(s, false);
    NumbersTruncated(s1);
    TruncatedAfterDenormal(s, FpremNumbers(s1, false));
  }

  /** fprem1 leaves x minus the nearest multiple of y, the even one of two, which is at
      most half of y, unless it loses the carry. */
  lemma Fprem1Exactly(s: State)
    requires Inv(s) && GoesOn(s) && !CarryLost(s.St(0), s.St(1))
    ensures NearestRemainder(s, DoFpremSpec(s, true))
  {
    var s1 := AfterDenormal(s, AnyDenormal(s));
    AfterDenormalKeeps(s, AnyDenormal(s));
    GoingOn(s, true);
    NumbersNearest(s1);
    NearestAfterDenormal(s, FpremNumbers(s1, true));
  }

  // ----- the invariant -----

  lemma LeavesTrueTags(s: State, s': State, t: int, q: int, flip: bool, scaled: bool)
    requires TagsTrue(s.tw, s.st) && Leaves(s, s', t, q, flip, scaled)
    ensures TagsTrue(s'.tw, s'.st)
  {
    hide Pow2, MagOf, Mag, TinyMagnitude, RoundMag;
    forall j: nat | j < 8 ensures GetTag(s'.tw, j) == Empty || GetTag(s'.tw, j) == TagOf(s'.st[j]) {
      if j == s.Phys(0) {
        assert s'.Tagi(0) == TagOf(s'.St(0));
      } else {
        assert Same(s, s', j);
        assert GetTag(s.tw, j) == Empty || GetTag(s.tw, j) == TagOf(s.st[j]);
      }
    }
  }

  lemma TruncatedTrueTags(s: State, s': State, x: nat, y: nat)
    requires TagsTrue(s.tw, s.st) && Truncates(s, s', x, y)
    ensures TagsTrue(s'.tw, s'.st)
  {
    hide Pow2, MagOf, Mag, TinyMagnitude, RoundMag;
    LeavesTrueTags(s, s', x % y, x / y, false, Scales(s, x % y));
  }

  lemma NearestTrueTags(s: State, s': State)
    requires TagsTrue(s.tw, s.st) && NearestRemainder(s, s')
    ensures TagsTrue(s'.tw, s'.st)
  {
    hide Pow2, MagOf, Mag, TinyMagnitude, RoundMag;
    var x, y := Mag(s.St(0)), Mag(s.St(1));
    var q := RoundMag(RND, false, x, y);
    LeavesTrueTags(s, s', Dist(x, q * y), q, q * y > x, Scales(s, Dist(x, q * y)));
  }

  lemma NumbersSummary(s: State, nearest: bool)
    requires Inv(s) && Numbers(s) && Difference16(s.St(0), s.St(1)) < 64
    ensures var s' := FpremNumbers(s, nearest); SummaryTrue(s'.cw, s'.sw)
  {
    hide Pow2, LeadingZeros;
    if Difference16(s.St(0), s.St(1)) >= -1 {
      NearState(s, nearest);
      var q := Remainder(s.St(0), s.St(1), nearest).q;
      ExceptionKeepsSummary(s.cw, QuotientBits(s.sw, q), Underflow);
    }
  }

  /** What fprem1 leaves when it loses the carry: the divisor is taken once, but short
      of 2^64 units in the place of the dividend's last bit. */
  function Shortfall(x: Reg): nat
    requires Numeric(x)
  {
    TWO64 * Pow2(if ToExp16(x).Exponent16() >= -16445 then ToExp16(x).Exponent16() + 16445 else 0)
  }

  lemma ShortMultiple(a: nat, b: nat, k: nat, p: nat)
    requires p > 0
    ensures (a * p - b * p - 2 * p * k) % p == 0
  {
    var c := a - b - 2 * k;
    MulDistribute(a, 0 - b, p);
    MulDistribute(a - b, 0 - 2 * k, p);
    MulAssoc(2, p, k);
    Commute(p, k);
    MulAssoc(2, k, p);
    assert a * p - b * p - 2 * p * k == c * p;
    DivModUnique(c * p, c, 0, p);
  }

  lemma ScaledShort(s0: Normal, s1: Normal, g: nat)
    requires g > 0 && 2 * s1 - s0 >= TWO64
    ensures (2 * s1 - s0 - TWO64) * g == 2 * s1 * g - s0 * g - TWO64 * g
  {
    MulDistribute(2 * s1, 0 - s0, g);
    MulDistribute(2 * s1 - s0, 0 - TWO64, g);
  }

  lemma LostMagnitude(x: Reg, y: Reg)
    requires Numeric(x) && Numeric(y) && CarryLost(x, y)
    ensures var r, e := Remainder(x, y, true), ToExp16(y).Exponent16();
      && r.q == 1 && r.flip && -16445 <= e + r.e
      && MagOf(r.t, e + r.e) == Mag(y) - Mag(x) - Shortfall(x)
      && MagOf(r.t, e + r.e) % Pow2(63) == 0
  {
    hide Pow2, LeadingZeros, Mag, Nearer, Reduce;
    AlignedMinusOne(x, y);
    ToExp16Keeps(x);
    ToExp16Keeps(y);
    var s0, s1, g := ToExp16(x).Sig(), ToExp16(y).Sig(), Pow2(ToExp16(x).Exponent16() + 16445);
    WrongQuotient(s0, s1);
    ScaledShort(s0, s1, g);
    MagIsMultiple(x);
    MagIsMultiple(y);
    Pow2Values();
    ShortMultiple(Units(y), Units(x), g, Pow2(63));
  }

  /** With a lost carry fprem1 leaves y - x - Shortfall with the opposite sign and the
      quotient bits of 1, where the nearest multiple would have been 0. */
  lemma LostCarryLeaves(s: State)
    requires Inv(s) && Numbers(s) && CarryLost(s.St(0), s.St(1))
    ensures var t := Mag(s.St(1)) - Mag(s.St(0)) - Shortfall(s.St(0));
      Leaves(s, FpremNumbers(s, true), t, 1, true, Scales(s, t))
  {
    hide Pow2, MagOf, Mag, TinyMagnitude, Shortfall, Leaves;
    var x, y := s.St(0), s.St(1);
    LostMagnitude(x, y);
    NearState(s, true);
    var r, e := Remainder(x, y, true), ToExp16(y).Exponent16();
    PackLeaves(s, r, e, MagOf(r.t, e + r.e));
  }

  lemma LostTrueTags(s: State)
    requires Inv(s) && GoesOn(s) && CarryLost(s.St(0), s.St(1))
    ensures TagsTrue(DoFpremSpec(s, true).tw, DoFpremSpec(s, true).st)
  {
    hide Pow2, Mag, Leaves, Shortfall, TinyMagnitude, GetTag, FpremNumbers, Difference16, Numeric;
    var s1 := AfterDenormal(s, AnyDenormal(s));
    AfterDenormalKeeps(s, AnyDenormal(s));
    GoingOn(s, true);
    LostCarryLeaves(s1);
    var t := Mag(s1.St(1)) - Mag(s1.St(0)) - Shortfall(s1.St(0));
    LeavesTrueTags(s1, FpremNumbers(s1, true), t, 1, true, Scales(s1, t));
  }

  /** fprem and fprem1 keep the invariant of every run, exact or not. */
  lemma FpremKeeps(s: State, nearest: bool)
    requires Inv(s) && GoesOn(s)
    ensures Inv(DoFpremSpec(s, nearest))
  {
    var s1 := AfterDenormal(s, AnyDenormal(s));
    AfterDenormalKeeps(s, AnyDenormal(s));
    GoingOn(s, nearest);
    NumbersSummary(s1, nearest);
    if nearest && CarryLost(s.St(0), s.St(1)) {
      LostTrueTags(s);
    } else if nearest {
      Fprem1Exactly(s);
      NearestTrueTags(s, DoFpremSpec(s, true));
    } else {
      FpremExactly(s);
      TruncatedTrueTags(s, DoFpremSpec(s, false), Mag(s.St(0)), Mag(s.St(1)));
    }
  }
}
