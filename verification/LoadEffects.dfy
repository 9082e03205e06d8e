/** What a load from memory leaves on the stack, as the number that the memory operand
    means, and that storing it again gives back what was read. */
module LoadEffects {
  import opened Arith
  import opened Powers
  import opened Rounding
  import opened FpuRegs
  import opened FpuState
  import opened StoreReal
  import opened StoreRealCorrect
  import opened LoadReal
  import opened IntegerData
  import opened PackedDecimal
  import opened Compare
  import opened StackOps
  import opened StackRuns
  import opened StackMeaning
  import opened Frndint
  import opened Effects

  // ----- what memory operands mean -----

  predicate MeansNaN(m: Memory) {
    match m
    case Real32(w) => SingleExp(w) == 0xff && SingleFrac(w) != 0
    case Real64(d) => DoubleExp(d) == 0x7ff && DoubleFrac(d) != 0
    case Real80(r) => IsNaN(r)
    case _ => false
  }

  predicate SignBitSet(m: Memory) {
    match m
    case Real32(w) => w >= BIT31
    case Real64(d) => d.hi >= BIT31
    case Real80(r) => r.exp >= 0x8000
    case Signed64(v) => v < 0
    case Decimal18(b) => b[9] >= 0x80
  }

  /** The magnitude of a finite operand; integers in units of 1.0. */
  function Magnitude(m: Memory): nat {
    match m
    case Real32(w) => SingleMag(w)
    case Real64(d) => DoubleMag(d)
    case Real80(r) => Mag(r)
    case Signed64(v) => Scaled(Abs(v))
    case Decimal18(b) => Scaled(Value(b[..9]))
  }

  function Scaled(n: nat): nat { MulMono(0, n, Mag(CONST_1)); n * Mag(CONST_1) }

  predicate MeansInfinity(m: Memory) {
    match m
    case Real32(w) => SingleExp(w) == 0xff && SingleFrac(w) == 0
    case Real64(d) => DoubleExp(d) == 0x7ff && DoubleFrac(d) == 0
    case Real80(r) => Kind(r, TagOf(r)) == Infinity
    case _ => false
  }

  lemma IntRegMeans(neg: bool, n: u64)
    ensures var r := IntReg(neg, n);
      !IsNaN(r) && Kind(r, TagOf(r)) != Infinity && r.Neg() == neg && Mag(r) == Scaled(n)
  {
    hide Pow2, LeadingZeros;
    MagOne(16508);
    IntRegMag(neg, n, 16508);
    IntReloads(RND, neg, n);
  }

  lemma DoubleMeans(d: Double)
    ensures var r := LoadDoubleSpec(d);
      && r.Neg() == (d.hi >= BIT31)
      && (DoubleExp(d) != 0x7ff ==> !IsNaN(r) && Kind(r, TagOf(r)) != Infinity && Mag(r) == DoubleMag(d))
      && (DoubleExp(d) == 0x7ff ==> Kind(r, TagOf(r)) == if DoubleFrac(d) == 0 then Infinity else NaN)
  {
    hide Pow2, Mag, DoubleMag;
    LoadedNaN(d);
    if DoubleExp(d) != 0x7ff { LoadDoubleExact(d); } else { Words(LoadDoubleSpec(d)); }
  }

  lemma SingleMeans(w: u32)
    ensures var r := LoadSingleSpec(w);
      && r.Neg() == (w >= BIT31)
      && (SingleExp(w) != 0xff ==> !IsNaN(r) && Kind(r, TagOf(r)) != Infinity && Mag(r) == SingleMag(w))
      && (SingleExp(w) == 0xff ==> Kind(r, TagOf(r)) == if SingleFrac(w) == 0 then Infinity else NaN)
  {
    hide Pow2, Mag, SingleMag;
    LoadedSingleNaN(w);
    if SingleExp(w) != 0xff { LoadSingleExact(w); } else { Words(LoadSingleSpec(w)); }
  }

  /** The converted register is the number that the operand means, with its sign also
      when that is zero. */
  lemma ConvertedMeans(m: Memory)
    requires Fits(m)
    ensures var r := Converted(m);
      && IsNaN(r) == MeansNaN(m)
      && (Kind(r, TagOf(r)) == Infinity) == MeansInfinity(m)
      && r.Neg() == SignBitSet(m)
      && (!MeansNaN(m) && !MeansInfinity(m) ==> Mag(r) == Magnitude(m))
  {
    hide Pow2, Mag, DoubleMag, SingleMag, Scaled, TagOf, SpecialKind, IntReg, LoadDoubleSpec, LoadSingleSpec;
    match m
    case Real32(w) => SingleMeans(w);
    case Real64(d) => DoubleMeans(d);
    case Real80(r) =>
    case Signed64(v) => IntRegMeans(v < 0, Abs(v));
    case Decimal18(b) => ValueBound(b[..9]); IntRegMeans(b[9] >= 0x80, Value(b[..9]));
  }

  /** fild in the terms of a comparison: the integer, in units of 1.0. */
  lemma IntegerMeans(v: int)
    requires Fits(Signed64(v))
    ensures !IsNaN(Converted(Signed64(v))) && Number(Converted(Signed64(v))) == Finite(v * Mag(CONST_1))
  {
    hide Pow2, Mag, Converted, TagOf, SpecialKind;
    ConvertedMeans(Signed64(v));
  }

  /** The denormal exception is for the denormals of the format. */
  lemma DenormalDoubleIff(d: Double)
    ensures DenormalMemory(Real64(d)) <==> 0 < DoubleMag(d) < Pow2(52 + DOUBLE_KMIN)
  {
    hide Pow2;
    PackUnpackDouble(d);
    Pow2Values();
    BelowNormal(52, DOUBLE_KMIN, DoubleExp(d), DoubleFrac(d));
  }

  lemma DenormalSingleIff(w: u32)
    ensures DenormalMemory(Real32(w)) <==> 0 < SingleMag(w) < Pow2(23 + SINGLE_KMIN)
  {
    hide Pow2;
    Pow2Values();
    BelowNormal(23, SINGLE_KMIN, SingleExp(w), SingleFrac(w));
  }

  lemma BelowNormal(p: nat, kmin: nat, e: nat, m: nat)
    requires m < Pow2(p)
    ensures e == 0 && m != 0 <==> 0 < BinaryMag(p + 1, kmin, e, m) < Pow2(p + kmin)
  {
    hide Pow2;
    Pow2Add(p, kmin);
    if e == 0 {
      MulStrict(m, Pow2(p), Pow2(kmin));
      if m == 0 { MulMono(0, 0, Pow2(kmin)); } else { MulMono(1, m, Pow2(kmin)); }
    } else {
      Pow2Mono(kmin, e - 1 + kmin);
      MulMonoRight(Pow2(p), Pow2(kmin), Pow2(e - 1 + kmin));
      MulMono(Pow2(p), Pow2(p) + m, Pow2(e - 1 + kmin));
    }
  }

  // ----- the instruction -----

  predicate SignallingMemory(m: Memory) {
    if m.Real32? then SignallingSingle(m.w) else m.Real64? && SignallingDouble(m.d)
  }

  /** Without room the load is a stack overflow, whatever the operand. */
  lemma LoadOverflows(s: State, m: Memory)
    requires Inv(s) && Fits(m) && s.Tagi(-1) != Empty
    ensures var s' := Step(s, LOAD(m));
      && StackFault(s, s', true)
      && if s.cw.masks.invalid then Pushes(s, s', INDEFINITE_NAN, Special) else SameStack(s, s')
  {
    hide GetTag, SetTag, Exception, StackOverflow, Converted, TagOf, NaNBits, DenormalMemory;
    OverflowEffect(s);
  }

  lemma NaNMemory(m: Memory)
    requires Fits(m) && (m.Real32? || m.Real64?)
    ensures var r := Converted(m);
      && (TagOf(r) == Special && NaNBits(r) <==> MeansNaN(m))
      && (MeansNaN(m) ==> !Unsupported(r) && (r.sigh < 0xc000_0000 <==> SignallingMemory(m)) && !DenormalMemory(m))
      && (SignallingMemory(m) ==> MeansNaN(m))
  {
    if m.Real32? { LoadedSingleNaN(m.w); } else { LoadedNaN(m.d); }
  }

  /** A load that is not of a signalling NaN pushes what the operand means, with the tag
      of its contents, clears C1, and flags a denormal operand. */
  lemma LoadPushes(s: State, m: Memory)
    requires Inv(s) && Fits(m) && s.Tagi(-1) == Empty && !SignallingMemory(m)
    ensures var s', r := Step(s, LOAD(m)), Converted(m);
      && Pushes(s, s', r, TagOf(r)) && s'.cw == s.cw
      && SameCodes(s.sw, s'.sw) && !s'.sw.c1 && s'.sw.stackFault == s.sw.stackFault
      && s'.sw.flags == s.sw.flags.(denormOp := s.sw.flags.denormOp || DenormalMemory(m))
  {
    hide GetTag, SetTag, Exception, DenormalOperand, StackOverflow, Converted, NaNBits, SingleDenormal, DoubleDenormal,
         TagOf, MeansNaN, SignallingSingle, SignallingDouble, Unsupported, Inv, Pushes;
    var r := Converted(m);
    DenormalSets(s.cw, ClearC1(s.sw));
    if m.Real32? || m.Real64? { NaNMemory(m); }
    var s1 := Step(s, LOAD(m));
    PushPuts(s.(sw := s1.sw), r, TagOf(r));
    SamePushes(s, s.(sw := s1.sw), s1, r, TagOf(r));
  }

  lemma SamePushes(s: State, s1: State, s': State, r: Reg, t: Tag)
    requires Pushes(s1, s', r, t) && SameStack(s, s1)
    ensures Pushes(s, s', r, t)
  {
    hide GetTag;
    forall j: int ensures s.St(j) == s1.St(j) && s.Tagi(j) == s1.Tagi(j) {}
  }

  /** A signalling NaN is an invalid operation; if that is masked the NaN is pushed with
      its quiet bit set, otherwise nothing is. */
  lemma LoadSignals(s: State, m: Memory)
    requires Inv(s) && Fits(m) && s.Tagi(-1) == Empty && SignallingMemory(m)
    ensures var s', r := Step(s, LOAD(m)), Converted(m);
      && s'.cw == s.cw
      && SameCodes(s.sw, s'.sw) && !s'.sw.c1 && s'.sw.stackFault == s.sw.stackFault
      && s'.sw.flags == s.sw.flags.(invalid := true)
      && if s.cw.masks.invalid then
           && s'.St(0).exp == r.exp && s'.St(0).Sig() == r.Sig() + TWO63 / 2
           && Pushes(s, s', s'.St(0), Special)
         else SameStack(s, s')
  {
    hide GetTag, SetTag, Exception, StackOverflow, Converted, NaNBits, SingleDenormal, DoubleDenormal, TagOf, MeansNaN,
         SignallingSingle, SignallingDouble, Unsupported, Inv, Pushes;
    NaNMemory(m);
    ExceptionSets(s.cw, ClearC1(s.sw), Invalid);
    assert Also(s.sw.flags, Invalid) == s.sw.flags.(invalid := true);
    var s1, q := Step(s, LOAD(m)), RealNaN(s.cw, CLEAR, Converted(m)).0;
    if s.cw.masks.invalid {
      PushPuts(s.(sw := s1.sw), q, Special);
      SamePushes(s, s.(sw := s1.sw), s1, q, Special);
      assert s1.St(0) == q by { assert Pushes(s, s1, q, Special); PushedTop(s, s1, q); }
    }
  }

  lemma PushedTop(s: State, s': State, r: Reg)
    requires Pushes(s, s', r, Special)
    ensures s'.St(0) == r
  {
  }

  // ----- through the stack -----

  /** After the load, st(0) is stored and popped: memory gets out and the stack is as
      before. */
  ghost predicate ComesBack(s: State, m: Memory, f: Format, out: Output)
    requires Inv(s) && Fits(m)
  {
    && Inv(Load(s, m))
    && var s1 := Load(s, m);
    && Conversion(s1, f).0 == out && out != NotStored
    && Store(s1, f, true).tw == s.tw && Store(s1, f, true).top == s.top
    && Store(s1, f, true).sw == s.sw.(c1 := false) && Store(s1, f, true).cw == s.cw
  }

  lemma Exactly(s: State, m: Memory, f: Format, out: Output)
    requires Inv(s) && Fits(m) && s.Tagi(-1) == Empty && !m.Real32? && !m.Real64? && out != NotStored
    requires Inv(Load(s, m)) ==> Conversion(Load(s, m), f) == (out, ClearC1(Load(s, m).sw))
    ensures ComesBack(s, m, f, out)
  {
    hide GetTag, SetTag, Conversion, Converted, TagOf, Inv;
    LoadKeeps(s, m);
    LoadArrives(s, m);
    StorePops(Load(s, m), f);
  }

  /** fild, then fistp of the same width or a wider one. */
  lemma IntegerThroughStack(s: State, half: nat, v: int)
    requires Inv(s) && s.Tagi(-1) == Empty && 1 <= half <= TWO63 && InRange(half, v)
    ensures ComesBack(s, Signed64(v), Int(half), Integer(v))
  {
    hide GetTag, SetTag, StoreIntSpec, IntReg, TagOf;
    LoadKeeps(s, Signed64(v));
    LoadArrives(s, Signed64(v));
    IntRoundTrip(half, s.cw, ClearC1(Load(s, Signed64(v)).sw), v);
    Exactly(s, Signed64(v), Int(half), Integer(v));
  }

  /** fbld, then fbstp: eighteen valid digits and either sign. */
  lemma DecimalThroughStack(s: State, b: Bcd)
    requires Inv(s) && s.Tagi(-1) == Empty && Decimal(b[..9]) && (b[9] == 0 || b[9] == 0x80)
    ensures ComesBack(s, Decimal18(b), Decimal80, Packed(b))
  {
    hide GetTag, SetTag, StoreBcdSpec, LoadBcdSpec, TagOf, Decimal;
    LoadKeeps(s, Decimal18(b));
    LoadArrives(s, Decimal18(b));
    BcdRoundTrip(s.cw, ClearC1(Load(s, Decimal18(b)).sw), b);
    Exactly(s, Decimal18(b), Decimal80, Packed(b));
  }

  /** fld m80real, then fstp m80real: every ten bytes, signalling NaNs and unsupported
      formats among them. */
  lemma ExtendedThroughStack(s: State, r: Reg)
    requires Inv(s) && s.Tagi(-1) == Empty
    ensures ComesBack(s, Real80(r), Extended80, Ten(r))
  {
    hide GetTag, SetTag, TagOf;
    LoadKeeps(s, Real80(r));
    LoadArrives(s, Real80(r));
    Exactly(s, Real80(r), Extended80, Ten(r));
  }
}
