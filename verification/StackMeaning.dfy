/** What the instructions of StackOps mean to a program: exchanges, signs, the
    rounded constants, condition codes, and data passed through the stack. */
module StackMeaning {
  import opened Arith
  import opened Rounding
  import opened FpuRegs
  import opened FpuState
  import opened StoreReal
  import opened StoreRealCorrect
  import opened LoadReal
  import opened IntegerData
  import opened PackedDecimal
  import opened Compare
  import opened StackOps
  import opened StackRuns
  import opened SaveRestore

  // ----- exchange, copies -----

  /** Reading back what was put. */
  lemma PutReads(s: State, i: int, r: Reg, t: Tag, j: int)
    requires StackTag(t)
    ensures var s' := s.Put(i, r, t);
      && (s'.Phys(j) == s.Phys(j))
      && s'.St(j) == (if s.Phys(j) == s.Phys(i) then r else s.St(j))
      && s'.Tagi(j) == (if s.Phys(j) == s.Phys(i) then t else s.Tagi(j))
  {
    TagBitsBack(t);
    GetSetTag(s.tw, s.Phys(i), s.Phys(j), t);
  }

  lemma TagiIsStackTag(s: State, i: int)
    ensures StackTag(s.Tagi(i))
  {
  }

  /** fxch exchanges contents and tags. */
  lemma FxchExchanges(s: State, i: StNum)
    requires s.Tagi(0) != Empty && s.Tagi(i) != Empty
    ensures var s' := Fxch(s, i);
      && s'.top == s.top
      && s'.St(0) == s.St(i) && s'.Tagi(0) == s.Tagi(i)
      && s'.St(i) == s.St(0) && s'.Tagi(i) == s.Tagi(0)
  {
    hide GetTag, SetTag, StackUnderflow, Exception;
    TagiIsStackTag(s, 0);
    TagiIsStackTag(s, i);
    var s0 := NoC1(s);
    var s1 := s0.Put(0, s.St(i), s.Tagi(i));
    PutReads(s0, 0, s.St(i), s.Tagi(i), 0);
    PutReads(s0, 0, s.St(i), s.Tagi(i), i);
    PutReads(s1, i, s.St(0), s.Tagi(0), 0);
    PutReads(s1, i, s.St(0), s.Tagi(0), i);
  }

  lemma FxchRest(s: State, i: StNum)
    requires s.Tagi(0) != Empty && s.Tagi(i) != Empty
    ensures var s' := Fxch(s, i); s'.cw == s.cw && s'.sw == ClearC1(s.sw) && s'.top == s.top
  {
  }

  lemma SameRegisters(s: State, t: State)
    requires forall j: nat :: j < 8 ==> Same(s, t, j)
    ensures s.st == t.st && s.tw == t.tw
  {
    forall j: nat | j < 8 ensures s.st[j] == t.st[j] && GetTag(s.tw, j) == GetTag(t.tw, j) {
      assert Same(s, t, j);
    }
    SameTags(s.tw, t.tw);
  }

  lemma FxchTwice(s: State, i: StNum)
    requires s.Tagi(0) != Empty && s.Tagi(i) != Empty
    ensures Fxch(Fxch(s, i), i) == NoC1(s)
  {
    var s1 := Fxch(s, i);
    FxchExchanges(s, i);
    FxchRest(s, i);
    var s2 := Fxch(s1, i);
    FxchRest(s1, i);
    forall j: nat | j < 8 ensures Same(s, s2, j) {
      BackAgain(s, i, j);
    }
    SameRegisters(s, s2);
  }

  lemma SameAgain(s: State, t: State, u: State, j: nat)
    requires j < 8 && Same(s, t, j) && Same(t, u, j)
    ensures Same(s, u, j)
  {
  }

  lemma SameAt(s: State, t: State, i: int)
    requires s.top == t.top && s.St(i) == t.St(i) && s.Tagi(i) == t.Tagi(i)
    ensures Same(s, t, s.Phys(i))
  {
  }

  lemma BackAgain(s: State, i: StNum, j: nat)
    requires s.Tagi(0) != Empty && s.Tagi(i) != Empty && j < 8
    ensures Same(s, Fxch(Fxch(s, i), i), j)
  {
    var s1 := Fxch(s, i);
    FxchExchanges(s, i);
    FxchExchanges(s1, i);
    var s2 := Fxch(s1, i);
    if j == s.Phys(0) {
      SameAt(s, s2, 0);
    } else if j == s.Phys(i) {
      SameAt(s, s2, i);
    } else {
      Elsewhere(s, i, j);
    }
  }

  lemma Elsewhere(s: State, i: StNum, j: nat)
    requires j < 8 && j != s.Phys(0) && j != s.Phys(i) && Fxch(s, i).top == s.top
    ensures Same(s, Fxch(Fxch(s, i), i), j)
  {
    hide Fxch, Same, GetTag;
    var s1 := Fxch(s, i);
    FxchSame(s, i, j);
    FxchSame(s1, i, j);
    SameAgain(s, s1, Fxch(s1, i), j);
  }

  // ----- signs -----

  lemma SignKeepsKind(r: Reg)
    ensures Kind(FlipSign(r), TagOf(FlipSign(r))) == Kind(r, TagOf(r))
    ensures Kind(ClearSign(r), TagOf(ClearSign(r))) == Kind(r, TagOf(r))
    ensures Mag(FlipSign(r)) == Mag(r) && Mag(ClearSign(r)) == Mag(r)
    ensures FlipSign(r).Neg() == !r.Neg() && !ClearSign(r).Neg()
  {
    SignBit(r.exp);
    var x, y := FlipSign(r), ClearSign(r);
    assert x.Field() == r.Field() && y.Field() == r.Field() && x.Sig() == r.Sig() && y.Sig() == r.Sig();
  }

  function Negated(x: Extended): Extended {
    match x
    case NegInfinity => PosInfinity
    case Finite(v) => Finite(0 - v)
    case PosInfinity => NegInfinity
  }

  /** fchs negates the number and fabs takes its absolute value, for zeros, denormals
      and infinities too, and neither makes a NaN or stops being one. */
  lemma SignsMean(r: Reg)
    ensures IsNaN(FlipSign(r)) == IsNaN(r) && IsNaN(ClearSign(r)) == IsNaN(r)
    ensures !IsNaN(r) ==>
      && Number(FlipSign(r)) == Negated(Number(r))
      && Number(ClearSign(r)) == (if r.Neg() then Negated(Number(r)) else Number(r))
      && !Below(Number(ClearSign(r)), Finite(0))
  {
    SignKeepsKind(r);
  }

  // ----- constants -----

  /** Every constant is one of two neighbouring 64-bit significands: rounding up gives
      the upper one, down and chop the lower one, and rounding to nearest one of
      them; 1 and 0 are exact. */
  lemma ConstantsBracket(k: Constant)
    ensures var down, up, near := ConstantReg(k, DOWN), ConstantReg(k, UP), ConstantReg(k, RND);
      && ConstantReg(k, CHOP) == down
      && (near == down || near == up)
      && down.exp == up.exp
      && up.Sig() - down.Sig() == (if k == One || k == Nought then 0 else 1)
  {
  }

  /** With exponents that add up to -1 a product of numbers is 1 when the product of
      their significands is 2^127. */
  function TimesSig(x: Reg, y: Reg): int { x.Sig() * y.Sig() }

  /** log2(10) * log10(2) and log2(e) * ln(2) are 1: the constants rounded down give a
      product below it, rounded up above it. */
  lemma ReciprocalConstants()
    ensures TimesSig(ConstantReg(Log2Ten, DOWN), ConstantReg(Log10Two, DOWN)) < 2 * TWO63 * TWO63
    ensures TimesSig(ConstantReg(Log2Ten, UP), ConstantReg(Log10Two, UP)) > 2 * TWO63 * TWO63
    ensures ConstantReg(Log2Ten, UP).Exponent() + ConstantReg(Log10Two, UP).Exponent() == -1
    ensures TimesSig(ConstantReg(Log2E, DOWN), ConstantReg(LnTwo, DOWN)) < 2 * TWO63 * TWO63
    ensures TimesSig(ConstantReg(Log2E, UP), ConstantReg(LnTwo, UP)) > 2 * TWO63 * TWO63
    ensures ConstantReg(Log2E, UP).Exponent() + ConstantReg(LnTwo, UP).Exponent() == -1
  {
  }

  // ----- condition codes -----

  lemma ConditionsAfterException(cw: Control, sw: Status, ex: Ex)
    ensures var x := Exception(cw, sw, ex); x.c0 == sw.c0 && x.c2 == sw.c2 && x.c3 == sw.c3
  {
  }

  /** After fcom st(i) or fucom st(i) on registers in use: C0 exactly for less, C3
      exactly for equal, all of C3, C2 and C0 exactly for a NaN. */
  lemma ConditionCodes(s: State, i: StNum, quiet: bool)
    requires Inv(s) && s.Tagi(0) != Empty && s.Tagi(i) != Empty
    ensures var sw, x, y := Fcom(s, i, quiet).sw, s.St(0), s.St(i);
      if IsNaN(x) || IsNaN(y) then sw.c0 && sw.c2 && sw.c3
      else
        && sw.c0 == Below(Number(x), Number(y))
        && sw.c3 == (Number(x) == Number(y))
        && !sw.c2
  {
    TagTrue(s, 0);
    TagTrue(s, i);
    CompareCorrect(s.St(i), s.St(0));
    var c := CompareRegs(s.St(i), s.Tagi(i), s.St(0), s.Tagi(0));
    ConditionsAfterException(s.cw, Conditions(s.sw, c.order), DenormalOp);
    ConditionsAfterException(s.cw, Conditions(s.sw, NoComp), Invalid);
  }

  // ----- through memory -----

  lemma PopUndoes(tw: bv16, i: nat, t: Tag)
    requires i < 8 && GetTag(tw, i) == Empty
    ensures SetTag(SetTag(tw, i, t), i, Empty) == tw
  {
    TagBitsBack(Empty);
    forall j: nat | j < 8 ensures GetTag(SetTag(SetTag(tw, i, t), i, Empty), j) == GetTag(tw, j) {
      GetSetTag(tw, i, j, t);
      GetSetTag(SetTag(tw, i, t), i, j, Empty);
    }
    SameTags(SetTag(SetTag(tw, i, t), i, Empty), tw);
  }

  lemma TopBack(top: u8)
    ensures ((top - 1) % 0x100 + 1) % 0x100 == top
  {
  }

  /** A value pushed and popped leaves the stack as it was. */
  lemma PushPop(s: State, r: Reg, t: Tag)
    requires !Full(s) && StackTag(t)
    ensures var s1 := s.Push().Put(0, r, t); s1.Pop().tw == s.tw && s1.Pop().top == s.top
  {
    NextTop(s);
    PopUndoes(s.tw, s.Phys(-1), t);
    TopBack(s.top);
  }

  /** The register that a load without a fault leaves in st(0). */
  function Arrived(cw: Control, m: Memory): Reg
    requires Fits(m)
  {
    var r := Converted(m);
    if (m.Real32? || m.Real64?) && TagOf(r) == Special && NaNBits(r) then RealNaN(cw, CLEAR, r).0 else r
  }

  predicate Faults(s: State, m: Memory)
    requires Fits(m)
  {
    || Full(s)
    || ((m.Real32? || m.Real64?) && NaNBits(Converted(m)) && !RealNaN(s.cw, CLEAR, Converted(m)).2)
  }

  lemma QuietTag(cw: Control, r: Reg)
    requires TagOf(r) == Special && NaNBits(r)
    ensures TagOf(RealNaN(cw, CLEAR, r).0) == Special
  {
  }

  lemma LoadArrives(s: State, m: Memory)
    requires Inv(s) && Fits(m) && !Faults(s, m)
    ensures var r, s1 := Arrived(s.cw, m), Load(s, m);
      && s1.St(0) == r && s1.Tagi(0) == TagOf(r) && s1.cw == s.cw
      && s1.Pop().tw == s.tw && s1.Pop().top == s.top
  {
    hide GetTag, SetTag;
    var r, s1 := Arrived(s.cw, m), Load(s, m);
    var c := Converted(m);
    if TagOf(c) == Special && NaNBits(c) { QuietTag(s.cw, c); }
    var s0 := s.(sw := s1.sw).Push();
    assert s1 == s0.Put(0, r, TagOf(r));
    PutReads(s0, 0, r, TagOf(r), 0);
    PushPop(s.(sw := s1.sw), r, TagOf(r));
  }

  function QuietDouble(d: Double): Double {
    if SignallingDouble(d) then QuietBitOfDouble(d.hi); Double(d.lo, d.hi + 0x8_0000) else d
  }

  lemma QuietBitOfDouble(hi: u32)
    requires hi % 0x10_0000 < 0x8_0000
    ensures hi + 0x8_0000 < TWO32 && (hi + 0x8_0000) % 0x10_0000 == hi % 0x10_0000 + 0x8_0000
    ensures (hi + 0x8_0000) / 0x10_0000 == hi / 0x10_0000 && (hi + 0x8_0000 >= BIT31 <==> hi >= BIT31)
  {
    DivModUnique(hi + 0x8_0000, hi / 0x10_0000, hi % 0x10_0000 + 0x8_0000, 0x10_0000);
  }

  lemma NaNWords(neg: bool, m: nat)
    requires m < TWO63 && m / 2 * 2 == m
    ensures var r := MakeReg(neg, 0x7fff, TWO63 + m); r.sigh >= BIT31 && (r.sigh < 0xc000_0000 <==> m < TWO63 / 2)
  {
  }

  /** Which doubles load as NaNs, and which of those are quiet. */
  lemma LoadedNaN(d: Double)
    ensures var r := LoadDoubleSpec(d);
      && (NaNBits(r) <==> DoubleExp(d) == 0x7ff && DoubleFrac(d) != 0)
      && (NaNBits(r) ==> TagOf(r) == Special && !Unsupported(r))
      && (NaNBits(r) ==> (r.sigh < 0xc000_0000 <==> SignallingDouble(d)))
  {
    Words(LoadDoubleSpec(d));
    if DoubleExp(d) == 0x7ff && DoubleFrac(d) != 0 {
      NaNWords(DoubleNeg(d), DoubleFrac(d) * 0x800);
    }
  }

  lemma QuietArrives(cw: Control, d: Double)
    requires !SignallingDouble(d)
    ensures Arrived(cw, Real64(d)) == LoadDoubleSpec(d)
  {
    LoadedNaN(d);
    var r := Converted(Real64(d));
    if NaNBits(r) { assert RealNaN(cw, CLEAR, r).0 == r; }
  }

  lemma SignallingArrives(cw: Control, d: Double)
    requires SignallingDouble(d)
    ensures RealNaN(cw, CLEAR, LoadDoubleSpec(d)).2 == cw.masks.invalid && NaNBits(LoadDoubleSpec(d))
    ensures cw.masks.invalid ==> Arrived(cw, Real64(d)) == LoadDoubleSpec(QuietDouble(d))
    ensures !SignallingDouble(QuietDouble(d))
  {
    LoadedNaN(d);
    QuietBitOfDouble(d.hi);
    QuietReg(d);
    var r := Converted(Real64(d));
    if cw.masks.invalid { assert RealNaN(cw, CLEAR, r).0 == r.(sigh := r.sigh + 0x4000_0000); }
  }

  lemma QuietReg(d: Double)
    requires SignallingDouble(d) && LoadDoubleSpec(d).sigh < 0xc000_0000
    ensures var r := LoadDoubleSpec(d); LoadDoubleSpec(QuietDouble(d)) == r.(sigh := r.sigh + 0x4000_0000)
  {
    var r, q := LoadDoubleSpec(d), QuietDouble(d);
    QuietBitOfDouble(d.hi);
    assert DoubleFrac(q) == DoubleFrac(d) + 0x8_0000 * TWO32;
    QuietWords(DoubleFrac(d) * 0x800);
  }

  lemma QuietWords(s: nat)
    requires s < TWO63 / 2
    ensures (TWO63 + s) / TWO32 + 0x4000_0000 == (TWO63 + s + 0x8_0000 * TWO32 * 0x800) / TWO32
    ensures (TWO63 + s) % TWO32 == (TWO63 + s + 0x8_0000 * TWO32 * 0x800) % TWO32
  {
    DivModUnique(TWO63 + s + 0x8_0000 * TWO32 * 0x800, (TWO63 + s) / TWO32 + 0x4000_0000, (TWO63 + s) % TWO32, TWO32);
  }

  lemma StoresDouble(s: State, d: Double)
    requires Inv(s) && !SignallingDouble(d) && s.St(0) == LoadDoubleSpec(d) && s.Tagi(0) == TagOf(s.St(0))
    ensures Conversion(s, Double64).0 == DoubleWords(d)
  {
    DoubleRoundTrip(s.cw, ClearC1(s.sw), d);
  }

  lemma StorePops(s: State, f: Format)
    requires Inv(s) && Conversion(s, f).0 != NotStored
    ensures Store(s, f, true).tw == s.Pop().tw && Store(s, f, true).top == s.Pop().top
  {
    hide Conversion, GetTag, SetTag;
  }

  /** fld m64real, then fstp m64real: unless one of them faults, memory gets the same
      double, made quiet if it was a signalling NaN, and the stack is as before. */
  lemma DoubleThroughStack(s: State, d: Double)
    requires Inv(s) && !Faults(s, Real64(d))
    ensures Inv(Load(s, Real64(d)))
    ensures var s1 := Load(s, Real64(d));
      && Conversion(s1, Double64).0 == DoubleWords(QuietDouble(d))
      && Store(s1, Double64, true).tw == s.tw && Store(s1, Double64, true).top == s.top
  {
    var m := Real64(d);
    LoadKeeps(s, m);
    LoadArrives(s, m);
    if SignallingDouble(d) { SignallingArrives(s.cw, d); } else { QuietArrives(s.cw, d); }
    StoresDouble(Load(s, m), QuietDouble(d));
    StorePops(Load(s, m), Double64);
  }

  // ----- singles -----

  function QuietSingle(w: u32): u32 {
    if SignallingSingle(w) then QuietBitOfSingle(w); w + 0x40_0000 else w
  }

  lemma QuietBitOfSingle(w: u32)
    requires w % TWO23 < TWO23 / 2
    ensures w + 0x40_0000 < TWO32 && (w + 0x40_0000) % TWO23 == w % TWO23 + 0x40_0000
    ensures (w + 0x40_0000) / TWO23 == w / TWO23 && (w + 0x40_0000 >= BIT31 <==> w >= BIT31)
  {
    DivModUnique(w + 0x40_0000, w / TWO23, w % TWO23 + 0x40_0000, TWO23);
  }

  /** Which singles load as NaNs, and which of those are quiet. */
  lemma LoadedSingleNaN(w: u32)
    ensures var r := LoadSingleSpec(w);
      && (NaNBits(r) <==> SingleExp(w) == 0xff && SingleFrac(w) != 0)
      && (NaNBits(r) ==> TagOf(r) == Special && !Unsupported(r))
      && (NaNBits(r) ==> (r.sigh < 0xc000_0000 <==> SignallingSingle(w)))
  {
    Words(LoadSingleSpec(w));
  }

  lemma QuietSingleArrives(cw: Control, w: u32)
    requires !SignallingSingle(w)
    ensures Arrived(cw, Real32(w)) == LoadSingleSpec(w)
  {
    LoadedSingleNaN(w);
    var r := Converted(Real32(w));
    if NaNBits(r) { assert RealNaN(cw, CLEAR, r).0 == r; }
  }

  lemma SignallingSingleArrives(cw: Control, w: u32)
    requires SignallingSingle(w)
    ensures RealNaN(cw, CLEAR, LoadSingleSpec(w)).2 == cw.masks.invalid && NaNBits(LoadSingleSpec(w))
    ensures cw.masks.invalid ==> Arrived(cw, Real32(w)) == LoadSingleSpec(QuietSingle(w))
    ensures !SignallingSingle(QuietSingle(w))
  {
    LoadedSingleNaN(w);
    QuietBitOfSingle(w);
    QuietSingleReg(w);
    var r := Converted(Real32(w));
    if cw.masks.invalid { assert RealNaN(cw, CLEAR, r).0 == r.(sigh := r.sigh + 0x4000_0000); }
  }

  lemma QuietSingleReg(w: u32)
    requires SignallingSingle(w) && LoadSingleSpec(w).sigh < 0xc000_0000
    ensures var r := LoadSingleSpec(w); LoadSingleSpec(QuietSingle(w)) == r.(sigh := r.sigh + 0x4000_0000)
  {
    var q := QuietSingle(w);
    QuietBitOfSingle(w);
    assert SingleFrac(q) == SingleFrac(w) + 0x40_0000 && SingleExp(q) == 0xff && SingleNeg(q) == SingleNeg(w);
    SingleWords(SingleFrac(w) * 0x100);
    SingleWords(SingleFrac(q) * 0x100);
  }

  lemma SingleWords(s: nat)
    requires s < BIT31
    ensures (TWO63 + s * TWO32) / TWO32 == BIT31 + s && (TWO63 + s * TWO32) % TWO32 == 0
  {
    DivModUnique(TWO63 + s * TWO32, BIT31 + s, 0, TWO32);
  }

  lemma StoresSingle(s: State, w: u32)
    requires Inv(s) && !SignallingSingle(w) && s.St(0) == LoadSingleSpec(w) && s.Tagi(0) == TagOf(s.St(0))
    ensures Conversion(s, Single).0 == Word(w)
  {
    SingleRoundTrip(s.cw, ClearC1(s.sw), w);
  }

  /** fld m32real, then fstp m32real. */
  lemma SingleThroughStack(s: State, w: u32)
    requires Inv(s) && !Faults(s, Real32(w))
    ensures Inv(Load(s, Real32(w)))
    ensures var s1 := Load(s, Real32(w));
      && Conversion(s1, Single).0 == Word(QuietSingle(w))
      && Store(s1, Single, true).tw == s.tw && Store(s1, Single, true).top == s.top
  {
    var m := Real32(w);
    LoadKeeps(s, m);
    LoadArrives(s, m);
    if SignallingSingle(w) { SignallingSingleArrives(s.cw, w); } else { QuietSingleArrives(s.cw, w); }
    StoresSingle(Load(s, m), QuietSingle(w));
    StorePops(Load(s, m), Single);
  }

  lemma SingleFaultsIff(s: State, w: u32)
    ensures Faults(s, Real32(w)) <==> Full(s) || (SignallingSingle(w) && !s.cw.masks.invalid)
  {
    LoadedSingleNaN(w);
  }

  /** The double cannot be loaded exactly when st(-1) is in use or it is a signalling
      NaN and the exception is not masked. */
  lemma DoubleFaultsIff(s: State, d: Double)
    ensures Faults(s, Real64(d)) <==> Full(s) || (SignallingDouble(d) && !s.cw.masks.invalid)
  {
    LoadedNaN(d);
  }
}
