/** The soft FPU as a state machine: every run of data-movement, comparison, constant
    and environment instructions, with its stack faults and exceptions. */
module StackRuns {
  import opened Rounding
  import opened FpuRegs
  import opened FpuState
  import opened StoreReal
  import opened LoadReal
  import opened IntegerData
  import opened PackedDecimal
  import opened Compare
  import opened StackOps

  type Bcd = d: seq<u8> | |d| == 10 witness seq(10, _ => 0)

  /** Which store conversion: fst m32real, m64real, fstp m80real, fist and fbstp. */
  datatype Format = Single | Double64 | Extended80 | Int(half: nat) | Decimal80

  /** The operand of fld m32real, m64real, m80real, fild and fbld. */
  datatype Memory = Real32(w: u32) | Real64(d: Double) | Real80(r: Reg) | Signed64(v: int) | Decimal18(b: Bcd)

  datatype Instr =
    | FLD(i: StNum) | FXCH(i: StNum) | FST(i: StNum, pop: bool)
    | FFREE(i: StNum, pop: bool) | FINCSTP | FDECSTP | FCHS | FABS
    | FCONST(k: Constant)
    | FCOM(i: StNum, quiet: bool, pops: nat)
    | LOAD(m: Memory)
    | STORE(f: Format, pop: bool)
    | FLDCW(cw: Control) | FLDENV(env: Env) | FSTENV | FRSTOR(env: Env, image: Stack) | FSAVE
    | FCLEX | FINIT

  datatype Output =
    | Nothing | NotStored
    | Word(w: u32) | DoubleWords(d: Double) | Ten(r: Reg) | Integer(v: int) | Packed(b: seq<u8>)
    | Environment(env: Env) | Saved(env: Env, image: Stack)

  predicate Fits(m: Memory) { m.Signed64? ==> -TWO63 <= m.v < TWO63 }

  /** Operands that the instruction encodings can hold. */
  predicate Encodable(x: Instr) {
    && (x.LOAD? ==> Fits(x.m))
    && (x.FCOM? ==> x.pops <= 2 && (x.pops == 2 ==> x.i == 1))
    && (x.STORE? && (x.f == Extended80 || x.f == Decimal80) ==> x.pop)
    && (x.STORE? && x.f.Int? ==> x.f.half == TWO63 || x.f.half == BIT31 || x.f.half == 0x8000)
  }

  /** The image a store hands to memory, if any, and the status word. */
  function Conversion(s: State, f: Format): (Output, Status)
    requires Inv(s)
  {
    var cw, sw, r, tag := s.cw, ClearC1(s.sw), s.St(0), s.Tagi(0);
    match f
    case Single =>
      var x := StoreSingleSpec(cw, sw, r, tag);
      (if x.image.Some? then Word(x.image.value) else NotStored, x.sw)
    case Double64 =>
      var x := StoreDoubleSpec(cw, sw, r, tag);
      (if x.image.Some? then DoubleWords(x.image.value) else NotStored, x.sw)
    case Extended80 =>
      if tag != Empty then (Ten(r), sw)
      else (if cw.masks.invalid then Ten(CONST_QNaN) else NotStored, Exception(cw, sw, StackUnder))
    case Int(half) =>
      var x := StoreIntSpec(half, cw, sw, r, tag);
      (if x.image.Some? then Integer(x.image.value) else NotStored, x.sw)
    case Decimal80 =>
      var x := StoreBcdSpec(cw, sw, r, tag);
      (if x.image.Some? then Packed(x.image.value) else NotStored, x.sw)
  }

  /** A store pops only if the number was actually stored. */
  function Store(s: State, f: Format, pop: bool): State
    requires Inv(s)
  {
    var (out, sw) := Conversion(s, f);
    var s1 := s.(sw := sw);
    if pop && out != NotStored then s1.Pop() else s1
  }

  /** What a load converts its operand to. */
  function Converted(m: Memory): Reg
    requires Fits(m)
  {
    match m
    case Real32(w) => LoadSingleSpec(w)
    case Real64(d) => LoadDoubleSpec(d)
    case Real80(r) => r
    case Signed64(v) => IntReg(v < 0, Abs(v))
    case Decimal18(b) => LoadBcdSpec(b)
  }

  predicate DenormalMemory(m: Memory) {
    if m.Real32? then SingleDenormal(m.w) else m.Real64? && DoubleDenormal(m.d)
  }

  function Load(s: State, m: Memory): State
    requires Fits(m)
  {
    if m.Real32? || m.Real64? then PushReal(s, Converted(m), DenormalMemory(m)) else PushLoaded(s, Converted(m))
  }

  function Step(s: State, x: Instr): State
    requires Inv(s) && Encodable(x)
  {
    match x
    case FLD(i) => Fld(s, i)
    case FXCH(i) => Fxch(s, i)
    case FST(i, pop) => if pop then Fst(s, i).Pop() else Fst(s, i)
    case FFREE(i, pop) => if pop then s.SetTagi(i, Empty).Pop() else s.SetTagi(i, Empty)
    case FINCSTP => NoC1(s).Unpush()
    case FDECSTP => NoC1(s).Push()
    case FCHS => WithSt0(s, FlipSign(s.St(0)))
    case FABS => WithSt0(s, ClearSign(s.St(0)))
    case FCONST(k) => FldConst(s, k)
    case FCOM(i, quiet, pops) => if pops == 0 then Fcom(s, i, quiet) else Fcomp(s, i, quiet, pops)
    case LOAD(m) => Load(s, m)
    case STORE(f, pop) => Store(s, f, pop)
    case FLDCW(cw) => Fldcw(s, cw)
    case FLDENV(env) => Fldenv(s, env)
    case FSTENV => Fstenv(s)
    case FRSTOR(env, image) => Frstor(s, env, image)
    case FSAVE => INIT
    case FCLEX => s.(sw := Fclex(s.sw))
    case FINIT => INIT
  }

  /** What the instruction writes to memory. */
  function Out(s: State, x: Instr): Output
    requires Inv(s)
  {
    match x
    case STORE(f, _) => Conversion(s, f).0
    case FSTENV => Environment(EnvOf(s))
    case FSAVE => Saved(EnvOf(s), Rotated(s.st, s.top % 8))
    case _ => Nothing
  }

  // ----- the invariant -----

  lemma TagBitsBack(t: Tag)
    requires StackTag(t)
    ensures BitsTag(TagBits(t)) == t && TagBits(t) & 3 == TagBits(t)
  {
  }

  lemma SetTagKeeps(tw: bv16, st: Stack, i: nat, r: Reg, t: Tag)
    requires TagsTrue(tw, st) && i < 8 && (t == Empty || t == TagOf(r))
    ensures TagsTrue(SetTag(tw, i, t), st[i := r])
  {
    TagBitsBack(t);
    forall j: nat | j < 8 ensures var g := GetTag(SetTag(tw, i, t), j); g == Empty || g == TagOf(st[i := r][j]) {
      GetSetTag(tw, i, j, t);
    }
  }

  lemma PutKeeps(s: State, i: int, r: Reg, t: Tag)
    requires Inv(s) && (t == Empty || t == TagOf(r))
    ensures Inv(s.Put(i, r, t))
  {
    SetTagKeeps(s.tw, s.st, s.Phys(i), r, t);
  }

  lemma SetTagiKeeps(s: State, i: int)
    requires Inv(s)
    ensures Inv(s.SetTagi(i, Empty))
  {
    SetTagKeeps(s.tw, s.st, s.Phys(i), s.st[s.Phys(i)], Empty);
    assert s.st[s.Phys(i) := s.st[s.Phys(i)]] == s.st;
  }

  lemma PopKeeps(s: State)
    requires Inv(s)
    ensures Inv(s.Pop())
  {
    SetTagiKeeps(s, 0);
  }

  lemma RaiseKeeps(s: State, ex: Ex)
    requires Inv(s)
    ensures Inv(s.Raise(ex))
  {
    ExceptionKeepsSummary(s.cw, s.sw, ex);
  }

  lemma OverflowKeeps(s: State)
    requires Inv(s)
    ensures Inv(StackOverflow(s))
  {
    if s.cw.masks.invalid {
      PutKeeps(s.Push(), 0, CONST_QNaN, Special);
      RaiseKeeps(s.Push().Put(0, CONST_QNaN, Special), StackOver);
    } else {
      RaiseKeeps(s, StackOver);
    }
  }

  lemma UnderflowKeeps(s: State, i: int)
    requires Inv(s)
    ensures Inv(StackUnderflow(s, i))
  {
    if s.cw.masks.invalid {
      PutKeeps(s, i, CONST_QNaN, Special);
      RaiseKeeps(s.Put(i, CONST_QNaN, Special), StackUnder);
    } else {
      RaiseKeeps(s, StackUnder);
    }
  }

  lemma TagTrue(s: State, i: int)
    requires Inv(s)
    ensures s.Tagi(i) == Empty || s.Tagi(i) == TagOf(s.St(i))
  {
    assert GetTag(s.tw, s.Phys(i)) == Empty || GetTag(s.tw, s.Phys(i)) == TagOf(s.st[s.Phys(i)]);
  }

  lemma FxchKeeps(s: State, i: StNum)
    requires Inv(s)
    ensures Inv(Fxch(s, i))
  {
    hide GetTag, SetTag, StackUnderflow, Exception, TagOf;
    var t0, ti, r0, ri := s.Tagi(0), s.Tagi(i), s.St(0), s.St(i);
    TagTrue(s, 0);
    TagTrue(s, i);
    PutKeeps(s, 0, ri, ti);
    PutKeeps(s, i, r0, t0);
    UnderflowKeeps(s, 0);
    UnderflowKeeps(StackUnderflow(s, 0), i);
    UnderflowKeeps(s, i);
    UnderflowKeeps(s.Put(0, ri, ti), i);
    UnderflowKeeps(s.Put(i, r0, t0), 0);
    PutKeeps(NoC1(s), 0, ri, ti);
    PutKeeps(NoC1(s).Put(0, ri, ti), i, r0, t0);
  }

  lemma FldKeeps(s: State, i: StNum)
    requires Inv(s)
    ensures Inv(Fld(s, i))
  {
    TagTrue(s, i);
    OverflowKeeps(s);
    UnderflowKeeps(s, 0);
    RaiseKeeps(s, StackUnder);
    if s.Tagi(i) != Empty { PutKeeps(s.Push(), 0, s.St(i), s.Tagi(i)); }
  }

  lemma SignBit(e: u16)
    ensures (e + 0x8000) % 0x1_0000 == (if e >= 0x8000 then e - 0x8000 else e + 0x8000)
    ensures (e + 0x8000) % 0x1_0000 % 0x8000 == e % 0x8000 == e % 0x8000 % 0x8000
  {
  }

  /** A change of sign does not change the tag. */
  lemma SignKeepsTag(r: Reg)
    ensures TagOf(FlipSign(r)) == TagOf(r) && TagOf(ClearSign(r)) == TagOf(r)
  {
    SignBit(r.exp);
    assert FlipSign(r).Field() == r.Field() && ClearSign(r).Field() == r.Field();
  }

  lemma WithSt0Keeps(s: State, r: Reg)
    requires Inv(s) && TagOf(r) == TagOf(s.St(0))
    ensures Inv(WithSt0(s, r))
  {
    UnderflowKeeps(s, 0);
  }

  lemma FldConstKeeps(s: State, k: Constant)
    requires Inv(s)
    ensures Inv(FldConst(s, k))
  {
    hide GetTag, SetTag, TagOf, Exception, ConstantReg, StackOverflow;
    OverflowKeeps(s);
    ConstantTag(k, s.cw.rc);
    PutKeeps(s.Push(), 0, ConstantReg(k, s.cw.rc), if k == Nought then Zero else Valid);
  }

  lemma ConstantTag(k: Constant, rc: Mode)
    ensures TagOf(ConstantReg(k, rc)) == if k == Nought then Zero else Valid
  {
  }

  lemma ConditionsKeep(s: State, o: Order, ex: Ex)
    requires SummaryTrue(s.cw, s.sw)
    ensures SummaryTrue(s.cw, Conditions(s.sw, o)) && SummaryTrue(s.cw, Exception(s.cw, Conditions(s.sw, o), ex))
    ensures SummaryTrue(s.cw, DenormalOperand(s.cw, Conditions(s.sw, o)))
  {
    ExceptionKeepsSummary(s.cw, Conditions(s.sw, o), ex);
    RaisingKeepsSummary(s.cw, Conditions(s.sw, o), true);
  }

  lemma FcomKeeps(s: State, i: StNum, quiet: bool)
    requires Inv(s)
    ensures Inv(Fcom(s, i, quiet))
  {
    ConditionsKeep(s, NoComp, StackUnder);
    ConditionsKeep(s, NoComp, Invalid);
    TagTrue(s, 0);
    TagTrue(s, i);
    if s.Tagi(0) != Empty && s.Tagi(i) != Empty {
      ConditionsKeep(s, CompareRegs(s.St(i), s.Tagi(i), s.St(0), s.Tagi(0)).order, Invalid);
    }
  }

  lemma FcompKeeps(s: State, i: StNum, quiet: bool, pops: nat)
    requires Inv(s) && 1 <= pops <= 2
    ensures Inv(Fcomp(s, i, quiet, pops))
  {
    var s1 := Fcom(s, i, quiet);
    FcomKeeps(s, i, quiet);
    PopKeeps(s1);
    PopKeeps(s1.Pop());
  }

  lemma PushLoadedKeeps(s: State, r: Reg)
    requires Inv(s)
    ensures Inv(PushLoaded(s, r))
  {
    OverflowKeeps(s);
    PutKeeps(NoC1(s).Push(), 0, r, TagOf(r));
  }

  lemma RealNaNKeeps(cw: Control, sw: Status, r: Reg)
    requires SummaryTrue(cw, sw) && TagOf(r) == Special && NaNBits(r)
    ensures SummaryTrue(cw, RealNaN(cw, sw, r).1) && TagOf(RealNaN(cw, sw, r).0) == Special
  {
    ExceptionKeepsSummary(cw, sw, Invalid);
  }

  lemma PushRealKeeps(s: State, r: Reg, denormal: bool)
    requires Inv(s)
    ensures Inv(PushReal(s, r, denormal))
  {
    var sw1 := LoadStatus(s, denormal);
    RaisingKeepsSummary(s.cw, ClearC1(s.sw), true);
    if Full(s) {
      OverflowKeeps(s);
    } else if TagOf(r) == Special && NaNBits(r) {
      PushNaNKeeps(s, r, sw1);
    } else {
      PutKeeps(s.(sw := sw1).Push(), 0, r, TagOf(r));
    }
  }

  lemma PushNaNKeeps(s: State, r: Reg, sw: Status)
    requires Inv(s) && SummaryTrue(s.cw, sw) && TagOf(r) == Special && NaNBits(r)
    ensures Inv(PushNaN(s, r, sw))
  {
    RealNaNKeeps(s.cw, sw, r);
    var (r', sw', _) := RealNaN(s.cw, sw, r);
    PutKeeps(s.(sw := sw').Push(), 0, r', Special);
  }

  // ----- tag words -----

  lemma {:induction false} TagWordHolds(tags: seq<Tag>, n: nat, j: nat)
    requires j < n <= |tags| == 8 && forall k: nat :: k < 8 ==> StackTag(tags[k])
    ensures GetTag(TagWord(tags, n), j) == tags[j]
  {
    GetSetTag(TagWord(tags, n - 1), n - 1, j, tags[n - 1]);
    TagBitsBack(tags[n - 1]);
    if j < n - 1 { TagWordHolds(tags, n - 1, j); }
  }

  lemma SameTag(v: bv16, w: bv16, i: nat, a: bv16)
    requires i < 8 && a <= 14 && a == Shift(i) && GetTag(v, i) == GetTag(w, i)
    ensures Field(v, a) == Field(w, a)
  {
    FieldFits(v, a);
    FieldFits(w, a);
    BitsTagInjective(Field(v, a), Field(w, a));
  }

  lemma FieldFits(w: bv16, a: bv16)
    requires a <= 14
    ensures Field(w, a) <= 3
  {
  }

  lemma BitsTagInjective(x: bv16, y: bv16)
    requires x <= 3 && y <= 3 && BitsTag(x) == BitsTag(y)
    ensures x == y
  {
  }

  /** A tag word is determined by its eight tags. */
  lemma SameTags(v: bv16, w: bv16)
    requires forall i: nat :: i < 8 ==> GetTag(v, i) == GetTag(w, i)
    ensures v == w
  {
    SameTag(v, w, 0, 0);
    SameTag(v, w, 1, 2);
    SameTag(v, w, 2, 4);
    SameTag(v, w, 3, 6);
    SameTag(v, w, 4, 8);
    SameTag(v, w, 5, 10);
    SameTag(v, w, 6, 12);
    SameTag(v, w, 7, 14);
    SameFields(v, w);
  }

  lemma TagsAre(tags: seq<Tag>, st: Stack)
    requires |tags| == 8
    requires forall k: nat :: k < 8 ==> tags[k] == Empty || tags[k] == TagOf(st[k])
    ensures TagsTrue(TagWord(tags, 8), st)
  {
    forall i: nat | i < 8 ensures GetTag(TagWord(tags, 8), i) == tags[i] {
      TagWordHolds(tags, 8, i);
    }
  }

  lemma FldenvKeeps(s: State, e: Env)
    requires Inv(s)
    ensures Inv(Fldenv(s, e))
  {
    forall k: nat | k < 8
      ensures LoadedTags(e.tw, s.tw, s.st)[k] == Empty || LoadedTags(e.tw, s.tw, s.st)[k] == TagOf(s.st[k])
    {
      assert GetTag(s.tw, k) == Empty || GetTag(s.tw, k) == TagOf(s.st[k]);
    }
    TagsAre(LoadedTags(e.tw, s.tw, s.st), s.st);
  }

  lemma FrstorKeeps(s: State, e: Env, image: Stack)
    requires Inv(s)
    ensures Inv(Frstor(s, e, image))
  {
    var s1, st := Fldenv(s, e), Unrotated(image, e.top);
    TagsAre(OwnTags(s1.tw, st), st);
  }

  lemma InitKeeps()
    ensures Inv(INIT)
  {
    assert forall i: nat :: i < 8 ==> GetTag(0xffff, i) == Empty;
  }

  // ----- stores -----

  lemma LossKeeps(cw: Control, sw: Status, loss: Loss)
    requires SummaryTrue(cw, sw)
    ensures SummaryTrue(cw, LossException(cw, sw, loss))
  {
    ExceptionKeepsSummary(cw, sw, Invalid);
    ExceptionKeepsSummary(cw, sw, Precision(true));
    ExceptionKeepsSummary(cw, sw, Precision(false));
  }

  lemma TinyKeeps(cw: Control, sw: Status, loss: Loss, quiet: bool)
    requires SummaryTrue(cw, sw)
    ensures SummaryTrue(cw, TinyStatus(cw, sw, loss, quiet).1)
  {
    ExceptionKeepsSummary(cw, sw, Underflow);
    LossKeeps(cw, sw, loss);
    LossKeeps(cw, Exception(cw, sw, Underflow), loss);
  }

  lemma OverflowStatusKeeps(cw: Control, sw: Status)
    requires SummaryTrue(cw, sw)
    ensures SummaryTrue(cw, OverflowStatus(cw, sw).1)
  {
    ExceptionKeepsSummary(cw, sw, Overflow);
    RaisingKeepsSummary(cw, Exception(cw, sw, Overflow), true);
  }

  lemma InexactKeeps(cw: Control, sw: Status, r: Reg, q: nat)
    requires SummaryTrue(cw, sw) && q > 0
    ensures SummaryTrue(cw, InexactStatus(cw, sw, r, q))
  {
    RaisingKeepsSummary(cw, sw, RoundMag(cw.rc, r.Neg(), r.Sig(), q) > r.Sig() / q);
  }

  lemma StoreDoubleKeeps(cw: Control, sw: Status, r: Reg, tag: Tag)
    requires SummaryTrue(cw, sw) && (tag == Valid ==> TagOf(r) == Valid)
    ensures SummaryTrue(cw, StoreDoubleSpec(cw, sw, r, tag).sw)
  {
    hide SomeUnmasked, Exception, NumericDouble;
    ExceptionKeepsSummary(cw, sw, Invalid);
    ExceptionKeepsSummary(cw, sw, StackUnder);
    var kind := Kind(r, tag);
    if kind == Valid || kind == Denormal {
      NumericDoubleKeeps(cw, sw, r, kind);
    }
  }

  lemma NumericDoubleKeeps(cw: Control, sw: Status, r: Reg, kind: Tag)
    requires SummaryTrue(cw, sw) && ((kind == Valid && TagOf(r) == Valid) || kind == Denormal)
    ensures SummaryTrue(cw, NumericDouble(cw, sw, r, kind).sw)
  {
    if kind == Denormal {
      TinyDoubleKeeps(cw, sw, r, r, Denormal);
    } else if r.Exponent() < -1022 {
      TinyDoubleKeeps(cw, sw, r, r.(exp := r.exp + 1074), Valid);
    } else {
      OverflowStatusKeeps(cw, sw);
      InexactKeeps(cw, sw, r, 0x800);
    }
  }

  lemma TinyDoubleKeeps(cw: Control, sw: Status, r: Reg, t: Reg, tag: Tag)
    requires SummaryTrue(cw, sw)
    ensures SummaryTrue(cw, TinyDouble(cw, sw, r, t, tag).sw)
  {
    var n, loss := RoundedSig(cw.rc, t, tag), RoundingCode(cw.rc, t, tag);
    TinyKeeps(cw, sw, loss, n == TWO52 && r.sigl % 0x800 != 0);
  }

  lemma StoreSingleKeeps(cw: Control, sw: Status, r: Reg, tag: Tag)
    requires SummaryTrue(cw, sw) && (tag == Valid ==> TagOf(r) == Valid)
    ensures SummaryTrue(cw, StoreSingleSpec(cw, sw, r, tag).sw)
  {
    hide SomeUnmasked, Exception, NumericSingle;
    ExceptionKeepsSummary(cw, sw, Invalid);
    ExceptionKeepsSummary(cw, sw, StackUnder);
    var kind := Kind(r, tag);
    if kind == Valid || kind == Denormal {
      NumericSingleKeeps(cw, sw, r, kind);
    }
  }

  lemma NumericSingleKeeps(cw: Control, sw: Status, r: Reg, kind: Tag)
    requires SummaryTrue(cw, sw) && ((kind == Valid && TagOf(r) == Valid) || kind == Denormal)
    ensures SummaryTrue(cw, NumericSingle(cw, sw, r, kind).sw)
  {
    if kind == Denormal {
      TinySingleKeeps(cw, sw, r, r, Denormal);
    } else if r.Exponent() < -126 {
      TinySingleKeeps(cw, sw, r, r.(exp := r.exp + 149), Valid);
    } else {
      OverflowStatusKeeps(cw, sw);
      InexactKeeps(cw, sw, r, 0x100_0000_0000);
    }
  }

  lemma TinySingleKeeps(cw: Control, sw: Status, r: Reg, t: Reg, tag: Tag)
    requires SummaryTrue(cw, sw)
    ensures SummaryTrue(cw, TinySingle(cw, sw, r, t, tag).sw)
  {
    var n, loss := RoundedSig(cw.rc, t, tag), RoundingCode(cw.rc, t, tag);
    TinyKeeps(cw, sw, loss, n % TWO32 == TWO23 && (r.sigh % 0x100 != 0 || r.sigl != 0));
  }

  lemma IntKeeps(half: nat, cw: Control, sw: Status, r: Reg, tag: Tag)
    requires SummaryTrue(cw, sw)
    ensures SummaryTrue(cw, StoreIntSpec(half, cw, sw, r, tag).sw)
  {
    hide Pending, SomeUnmasked, Exception;
    ExceptionKeepsSummary(cw, sw, Invalid);
    ExceptionKeepsSummary(cw, sw, StackUnder);
    RaisingKeepsSummary(cw, sw, true);
    RaisingKeepsSummary(cw, sw, false);
  }

  lemma BcdKeeps(cw: Control, sw: Status, r: Reg, tag: Tag)
    requires SummaryTrue(cw, sw)
    ensures SummaryTrue(cw, StoreBcdSpec(cw, sw, r, tag).sw)
  {
    hide Pending, SomeUnmasked, Exception;
    ExceptionKeepsSummary(cw, sw, Invalid);
    ExceptionKeepsSummary(cw, sw, StackUnder);
    RaisingKeepsSummary(cw, sw, true);
    RaisingKeepsSummary(cw, sw, false);
  }

  lemma ConversionKeeps(s: State, f: Format)
    requires Inv(s)
    ensures SummaryTrue(s.cw, Conversion(s, f).1)
  {
    var cw, sw, r, tag := s.cw, ClearC1(s.sw), s.St(0), s.Tagi(0);
    TagTrue(s, 0);
    match f
    case Single => StoreSingleKeeps(cw, sw, r, tag);
    case Double64 => StoreDoubleKeeps(cw, sw, r, tag);
    case Extended80 => ExceptionKeepsSummary(cw, sw, StackUnder);
    case Int(half) => IntKeeps(half, cw, sw, r, tag);
    case Decimal80 => BcdKeeps(cw, sw, r, tag);
  }

  lemma StoreKeeps(s: State, f: Format, pop: bool)
    requires Inv(s)
    ensures Inv(Store(s, f, pop))
  {
    ConversionKeeps(s, f);
    PopKeeps(s.(sw := Conversion(s, f).1));
  }

  // ----- runs -----

  predicate StackOnly(x: Instr) {
    x.FLD? || x.FXCH? || x.FST? || x.FFREE? || x.FINCSTP? || x.FDECSTP? || x.FCHS? || x.FABS? || x.FCONST? || x.FCOM?
  }

  lemma StackStepKeeps(s: State, x: Instr)
    requires Inv(s) && Encodable(x) && StackOnly(x)
    ensures Inv(Step(s, x))
  {
    match x
    case FLD(i) => FldKeeps(s, i);
    case FXCH(i) => FxchKeeps(s, i);
    case FST(i, _) => FstKeeps(s, i);
    case FFREE(i, _) => SetTagiKeeps(s, i); PopKeeps(s.SetTagi(i, Empty));
    case FCHS => SignKeepsTag(s.St(0)); WithSt0Keeps(s, FlipSign(s.St(0)));
    case FABS => SignKeepsTag(s.St(0)); WithSt0Keeps(s, ClearSign(s.St(0)));
    case FCONST(k) => FldConstKeeps(s, k);
    case FCOM(i, quiet, pops) => if pops == 0 { FcomKeeps(s, i, quiet); } else { FcompKeeps(s, i, quiet, pops); }
    case _ =>
  }

  lemma FstKeeps(s: State, i: StNum)
    requires Inv(s)
    ensures Inv(Fst(s, i)) && Inv(Fst(s, i).Pop())
  {
    TagTrue(s, 0);
    PutKeeps(s, i, s.St(0), s.Tagi(0));
    PopKeeps(Fst(s, i));
  }

  lemma LoadKeeps(s: State, m: Memory)
    requires Inv(s) && Fits(m)
    ensures Inv(Load(s, m))
  {
    PushRealKeeps(s, Converted(m), DenormalMemory(m));
    PushLoadedKeeps(s, Converted(m));
  }

  lemma OtherStepKeeps(s: State, x: Instr)
    requires Inv(s) && Encodable(x) && !StackOnly(x) && !x.LOAD? && !x.STORE?
    ensures Inv(Step(s, x))
  {
    match x
    case FLDENV(env) => FldenvKeeps(s, env);
    case FRSTOR(env, image) => FrstorKeeps(s, env, image);
    case FSAVE => InitKeeps();
    case FINIT => InitKeeps();
    case _ =>
  }

  /** Every instruction leaves true tags and true summary bits. */
  lemma StepKeeps(s: State, x: Instr)
    requires Inv(s) && Encodable(x)
    ensures Inv(Step(s, x))
  {
    if StackOnly(x) { StackStepKeeps(s, x); }
    else if x.LOAD? { LoadKeeps(s, x.m); }
    else if x.STORE? { StoreKeeps(s, x.f, x.pop); }
    else { OtherStepKeeps(s, x); }
  }

  predicate Program(p: seq<Instr>) {
    forall x :: x in p ==> Encodable(x)
  }

  function Run(s: State, p: seq<Instr>): State
    requires Inv(s) && Program(p)
    decreases |p|
  {
    if p == [] then s else
      StepKeeps(s, p[0]);
      Run(Step(s, p[0]), p[1..])
  }

  /** What a run writes to memory. */
  function Trace(s: State, p: seq<Instr>): seq<Output>
    requires Inv(s) && Program(p)
    decreases |p|
  {
    if p == [] then [] else
      StepKeeps(s, p[0]);
      [Out(s, p[0])] + Trace(Step(s, p[0]), p[1..])
  }

  lemma {:induction false} RunKeeps(s: State, p: seq<Instr>)
    requires Inv(s) && Program(p)
    ensures Inv(Run(s, p))
    decreases |p|
  {
    if p != [] {
      StepKeeps(s, p[0]);
      RunKeeps(Step(s, p[0]), p[1..]);
    }
  }

  /** In every state that a run from finit reaches, the tags are true and the summary
      bits are set exactly when an unmasked exception is pending. */
  lemma EveryRun(p: seq<Instr>)
    requires Program(p)
    ensures Inv(INIT)
    ensures var s := Run(INIT, p);
      && (forall i: StNum :: s.Tagi(i) != Empty ==> s.Tagi(i) == TagOf(s.St(i)))
      && s.sw.summary == s.sw.backward == Pending(s.cw, s.sw)
  {
    InitKeeps();
    RunKeeps(INIT, p);
    var s := Run(INIT, p);
    forall i: StNum ensures s.Tagi(i) != Empty ==> s.Tagi(i) == TagOf(s.St(i)) {
      TagTrue(s, i);
    }
  }

  // ----- frames -----

  /** The physical registers that an instruction names. */
  function Named(s: State, x: Instr): set<nat> {
    match x
    case FLD(i) => {if Full(s) || s.Tagi(i) != Empty then s.Phys(-1) else s.Phys(0)}
    case FXCH(i) => {s.Phys(0), s.Phys(i)}
    case FST(i, pop) => if pop then {s.Phys(i), s.Phys(0)} else {s.Phys(i)}
    case FFREE(i, pop) => if pop then {s.Phys(i), s.Phys(0)} else {s.Phys(i)}
    case FINCSTP => {}
    case FDECSTP => {}
    case FCHS => {s.Phys(0)}
    case FABS => {s.Phys(0)}
    case FCONST(_) => {s.Phys(-1)}
    case FCOM(_, _, pops) => if pops == 0 then {} else if pops == 1 then {s.Phys(0)} else {s.Phys(0), s.Phys(1)}
    case LOAD(_) => {s.Phys(-1)}
    case STORE(_, pop) => if pop then {s.Phys(0)} else {}
    case FLDCW(_) => {}
    case FLDENV(_) => {0, 1, 2, 3, 4, 5, 6, 7}
    case FSTENV => {}
    case FRSTOR(_, _) => {0, 1, 2, 3, 4, 5, 6, 7}
    case FSAVE => {0, 1, 2, 3, 4, 5, 6, 7}
    case FCLEX => {}
    case FINIT => {0, 1, 2, 3, 4, 5, 6, 7}
  }

  predicate Same(s: State, t: State, j: nat)
    requires j < 8
  {
    s.st[j] == t.st[j] && GetTag(s.tw, j) == GetTag(t.tw, j)
  }

  lemma PutSame(s: State, i: int, r: Reg, t: Tag, j: nat)
    requires j < 8 && j != s.Phys(i)
    ensures Same(s, s.Put(i, r, t), j) && Same(s, s.SetTagi(i, t), j)
  {
    GetSetTag(s.tw, s.Phys(i), j, t);
  }

  lemma NextTop(s: State)
    ensures s.Unpush().Phys(0) == s.Phys(1) && s.Push().Phys(0) == s.Phys(-1)
  {
  }

  lemma UnderflowSame(s: State, i: int, j: nat)
    requires j < 8 && j != s.Phys(i)
    ensures Same(s, StackUnderflow(s, i), j)
  {
    PutSame(s, i, CONST_QNaN, Special, j);
  }

  lemma PushSame(s: State, r: Reg, t: Tag, j: nat)
    requires j < 8 && j != s.Phys(-1)
    ensures Same(s, s.Push().Put(0, r, t), j)
  {
    NextTop(s);
    PutSame(s.Push(), 0, r, t, j);
  }

  lemma ConstSame(s: State, k: Constant, j: nat)
    requires j < 8 && j != s.Phys(-1)
    ensures Same(s, FldConst(s, k), j)
  {
    PushSame(s, CONST_QNaN, Special, j);
    PushSame(s, ConstantReg(k, s.cw.rc), if k == Nought then Zero else Valid, j);
  }

  lemma LoadedSame(s: State, r: Reg, j: nat)
    requires j < 8 && j != s.Phys(-1)
    ensures Same(s, PushLoaded(s, r), j)
  {
    hide GetTag, SetTag, TagOf, Exception;
    PushSame(s, CONST_QNaN, Special, j);
    PushSame(s, r, TagOf(r), j);
  }

  lemma RealSame(s: State, r: Reg, denormal: bool, j: nat)
    requires j < 8 && j != s.Phys(-1)
    ensures Same(s, PushReal(s, r, denormal), j)
  {
    var sw := LoadStatus(s, denormal);
    PushSame(s, CONST_QNaN, Special, j);
    NaNSame(s, r, sw, j);
    PushSame(s.(sw := sw), r, TagOf(r), j);
  }

  lemma NaNSame(s: State, r: Reg, sw: Status, j: nat)
    requires j < 8 && j != s.Phys(-1)
    ensures Same(s, PushNaN(s, r, sw), j)
  {
    var (r', sw', _) := RealNaN(s.cw, sw, r);
    PushSame(s.(sw := sw'), r', Special, j);
  }

  lemma FldSame(s: State, i: StNum, j: nat)
    requires j < 8 && j !in Named(s, FLD(i))
    ensures Same(s, Fld(s, i), j)
  {
    if Full(s) { PushSame(s, CONST_QNaN, Special, j); }
    else if s.Tagi(i) != Empty { PushSame(s, s.St(i), s.Tagi(i), j); }
    else { UnderflowSame(s, 0, j); }
  }

  lemma FxchSame(s: State, i: StNum, j: nat)
    requires j < 8 && j != s.Phys(0) && j != s.Phys(i)
    ensures Same(s, Fxch(s, i), j)
  {
    hide GetTag, SetTag, Exception;
    var t0, ti, r0, ri := s.Tagi(0), s.Tagi(i), s.St(0), s.St(i);
    if t0 == Empty && ti == Empty {
      UnderflowSame(s, 0, j);
      UnderflowSame(StackUnderflow(s, 0), i, j);
    } else if t0 == Empty {
      PutSame(s, 0, ri, ti, j);
      UnderflowSame(s, i, j);
      UnderflowSame(s.Put(0, ri, ti), i, j);
    } else if ti == Empty {
      PutSame(s, i, r0, t0, j);
      UnderflowSame(s, 0, j);
      UnderflowSame(s.Put(i, r0, t0), 0, j);
    } else {
      PutSame(NoC1(s), 0, ri, ti, j);
      PutSame(NoC1(s).Put(0, ri, ti), i, r0, t0, j);
    }
  }

  lemma StackStepSame(s: State, x: Instr, j: nat)
    requires Inv(s) && Encodable(x) && StackOnly(x) && j < 8 && j !in Named(s, x)
    ensures Same(s, Step(s, x), j)
  {
    match x
    case FLD(i) => FldSame(s, i, j);
    case FXCH(i) => FxchSame(s, i, j);
    case FST(i, pop) => PutSame(s, i, s.St(0), s.Tagi(0), j); if pop { PopSame(Fst(s, i), j); }
    case FFREE(i, pop) => PutSame(s, i, s.St(0), Empty, j); if pop { PopSame(s.SetTagi(i, Empty), j); }
    case FCHS => if s.Tagi(0) == Empty { UnderflowSame(s, 0, j); }
    case FABS => if s.Tagi(0) == Empty { UnderflowSame(s, 0, j); }
    case FCONST(k) => ConstSame(s, k, j);
    case FCOM(i, quiet, pops) => if pops > 0 { FcompSame(s, i, quiet, pops, j); }
    case _ =>
  }

  lemma LoadSame(s: State, m: Memory, j: nat)
    requires Fits(m) && j < 8 && j != s.Phys(-1)
    ensures Same(s, Load(s, m), j)
  {
    RealSame(s, Converted(m), DenormalMemory(m), j);
    LoadedSame(s, Converted(m), j);
  }

  /** A register that the instruction does not name keeps its contents and its tag,
      also when the instruction faults. */
  lemma StepSame(s: State, x: Instr, j: nat)
    requires Inv(s) && Encodable(x) && j < 8 && j !in Named(s, x)
    ensures Same(s, Step(s, x), j)
  {
    if StackOnly(x) { StackStepSame(s, x, j); }
    else if x.LOAD? { LoadSame(s, x.m, j); }
    else if x.STORE? {
      if x.pop { PopSame(s.(sw := Conversion(s, x.f).1), j); }
    }
  }

  lemma PopSame(s: State, j: nat)
    requires j < 8 && j != s.Phys(0)
    ensures Same(s, s.Pop(), j)
  {
    PutSame(s, 0, CONST_Z, Empty, j);
  }

  lemma FcompSame(s: State, i: StNum, quiet: bool, pops: nat, j: nat)
    requires Inv(s) && 1 <= pops <= 2 && j < 8 && j != s.Phys(0) && (pops == 2 ==> j != s.Phys(1))
    ensures Same(s, Fcomp(s, i, quiet, pops), j)
  {
    var s1 := Fcom(s, i, quiet);
    PopSame(s1, j);
    NextTop(s);
    if pops == 2 { PopSame(s1.Pop(), j); }
  }

  function NamedBy(s: State, p: seq<Instr>): set<nat>
    requires Inv(s) && Program(p)
    decreases |p|
  {
    if p == [] then {} else
      StepKeeps(s, p[0]);
      Named(s, p[0]) + NamedBy(Step(s, p[0]), p[1..])
  }

  lemma {:induction false} RunSame(s: State, p: seq<Instr>, j: nat)
    requires Inv(s) && Program(p) && j < 8 && j !in NamedBy(s, p)
    ensures Same(s, Run(s, p), j)
    decreases |p|
  {
    if p != [] {
      StepKeeps(s, p[0]);
      StepSame(s, p[0], j);
      RunSame(Step(s, p[0]), p[1..], j);
    }
  }

  /** The physical registers whose contents an instruction may change: fldenv, which
      names them all, changes tags only. */
  function Written(s: State, x: Instr): set<nat> { if x.FLDENV? then {} else Named(s, x) }

  function WrittenBy(s: State, p: seq<Instr>): set<nat>
    requires Inv(s) && Program(p)
    decreases |p|
  {
    if p == [] then {} else
      StepKeeps(s, p[0]);
      Written(s, p[0]) + WrittenBy(Step(s, p[0]), p[1..])
  }

  lemma {:induction false} RunContents(s: State, p: seq<Instr>, j: nat)
    requires Inv(s) && Program(p) && j < 8 && j !in WrittenBy(s, p)
    ensures Run(s, p).st[j] == s.st[j]
    decreases |p|
  {
    if p != [] {
      StepKeeps(s, p[0]);
      if !p[0].FLDENV? { StepSame(s, p[0], j); }
      RunContents(Step(s, p[0]), p[1..], j);
    }
  }
}
