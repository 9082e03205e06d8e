/** Comparison with an operand in memory (math_emulate in extras/x87-emu/fpu_entry.c),
    and runs that mix it, fprem, fprem1 and frndint with the other instructions. */
module WideRuns {
  import opened Rounding
  import opened FpuRegs
  import opened FpuState
  import opened FpuMachine
  import opened StoreReal
  import opened LoadReal
  import opened IntegerData
  import opened Compare
  import opened StackOps
  import opened StackRuns
  import opened StackCode
  import opened FpremExact
  import opened FpremFar
  import opened Frndint

  // ----- fcom and fcomp with memory -----

  /** fcom m32real, m64real, m16int and m32int. */
  predicate Comparable(m: Memory) {
    m.Real32? || m.Real64? || (m.Signed64? && InRange(BIT31, m.v))
  }

  /** NaNs are caught before the comparison, except in formats that only it knows to be
      unsupported. */
  predicate NaNOperand(s: State, m: Memory)
    requires Fits(m)
  {
    (s.Tagi(0) == Special && NaNBits(s.St(0))) || (TagOf(Converted(m)) == Special && NaNBits(Converted(m)))
  }

  function Compared(cw: Control, sw: Status, c: Comp): Status {
    if c.nan then Conditions(Exception(cw, sw, Invalid), NoComp)
    else if c.denormal then DenormalOperand(cw, Conditions(sw, c.order))
    else Conditions(sw, c.order)
  }

  function ComparisonWith(s: State, m: Memory): Comp
    requires Fits(m)
  {
    CompareRegs(Converted(m), TagOf(Converted(m)), s.St(0), TagOf(s.St(0)))
  }

  /** The status word, and whether fcomp pops. */
  function FcomStatus(s: State, m: Memory): (Status, bool)
    requires Fits(m)
  {
    if s.Tagi(0) == Empty then (Conditions(Exception(s.cw, s.sw, StackUnder), NoComp), s.cw.masks.invalid)
    else if NaNOperand(s, m) then (Conditions(Exception(s.cw, s.sw, Invalid), NoComp), s.cw.masks.invalid)
    else
      var sw := if DenormalMemory(m) then DenormalOperand(s.cw, s.sw) else s.sw;
      var c := ComparisonWith(s, m);
      (Compared(s.cw, sw, c), s.cw.masks.denormOp || !(DenormalMemory(m) || (!c.nan && c.denormal)))
  }

  function FcomMemory(s: State, m: Memory, pop: bool): State
    requires Fits(m)
  {
    var (sw, pops) := FcomStatus(s, m);
    if pop && pops then s.(sw := sw).Pop() else s.(sw := sw)
  }

  /** The operand converted, with the denormal exception of a real one. */
  method LoadOperand(f: Fpu, m: Memory) returns (loaded: FpuReg, tag: Tag)
    requires f.Valid() && Comparable(m)
    modifies f`partialStatus
    ensures fresh(loaded) && loaded.Val() == Converted(m) && tag == TagOf(loaded.Val())
    ensures f.partialStatus ==
      if DenormalMemory(m) then DenormalOperand(f.controlWord, old(f.partialStatus)) else old(f.partialStatus)
  {
    loaded := new FpuReg(CONST_Z);
    match m
    case Real32(w) => tag := LoadSingle(f, w, loaded);
    case Real64(d) => tag := LoadDouble(f, d.hi, d.lo, loaded);
    case Signed64(v) => tag := LoadInt32(v, loaded);
  }

  method FcomMemoryCode(f: Fpu, m: Memory, pop: bool)
    requires f.Valid() && Inv(f.S()) && Comparable(m)
    modifies f`partialStatus, f`tagWord, f`top
    ensures f.S() == FcomMemory(old(f.S()), m, pop)
  {
    hide Exception, DenormalOperand, GetTag, SetTag, Converted, TagOf, NaNBits, CompareRegs, DenormalMemory, Inv;
    ghost var s := f.S();
    var pops;
    if f.GetTagi(0) == Empty {
      f.Exception(StackUnder);
      SetConditions(f, NoComp);
      pops := f.controlWord.masks.invalid;
    } else {
      InvTag(s);
      pops := CompareLoaded(f, m);
    }
    if pop && pops {
      f.Pop();
    }
  }

  lemma InvTag(s: State)
    requires Inv(s) && s.Tagi(0) != Empty
    ensures s.Tagi(0) == TagOf(s.St(0))
  {
    TagTrue(s, 0);
  }

  method CompareLoaded(f: Fpu, m: Memory) returns (pops: bool)
    requires f.Valid() && Comparable(m) && f.S().Tagi(0) != Empty && f.S().Tagi(0) == TagOf(f.S().St(0))
    modifies f`partialStatus
    ensures (f.partialStatus, pops) == FcomStatus(old(f.S()), m)
  {
    hide Exception, DenormalOperand, GetTag, Converted, TagOf, NaNBits, CompareRegs, DenormalMemory;
    var status1 := f.partialStatus;
    var loaded, tag := LoadOperand(f, m);
    var unmasked := DenormalMemory(m) && !f.controlWord.masks.denormOp;
    if (f.GetTagi(0) == Special && NaNBits(f.St(0))) || (tag == Special && NaNBits(loaded.Val())) {
      f.partialStatus := status1;
      f.Exception(Invalid);
      SetConditions(f, NoComp);
      pops := f.controlWord.masks.invalid;
    } else {
      var stop := CompareStData(f, loaded.Val(), tag);
      pops := !stop && !unmasked;
    }
  }

  /** fcomp is not to pop when the comparison raises an invalid operation that is not
      masked. It does so exactly when no operand looks like a NaN to isNaN, so that only
      the comparison finds the format unsupported, and no denormal operand stops it. */
  lemma FcompPopsIff(s: State, m: Memory)
    requires Inv(s) && Fits(m) && s.Tagi(0) != Empty && !s.cw.masks.invalid
    requires IsNaN(s.St(0)) || IsNaN(Converted(m))
    ensures FcomMemory(s, m, true).top != s.top <==>
      !NaNOperand(s, m) && (s.cw.masks.denormOp || !DenormalMemory(m))
  {
    hide Exception, DenormalOperand, GetTag, SetTag, Converted, NaNBits, DenormalMemory, Below, Number;
    CompareCorrect(Converted(m), s.St(0));
    TopMoves(s.top);
  }

  lemma TopMoves(top: u8)
    ensures (top + 1) % 0x100 != top
  {
  }

  /** An unnormal in st(0), compared with 1 and popped. */
  function Unnormal(): State {
    State(CW_INIT.(masks := ALL_MASKED.(invalid := false)), CLEAR, 2, 0,
          [Reg(1, 0, 0x3fff), CONST_1, CONST_1, CONST_1, CONST_1, CONST_1, CONST_1, CONST_1])
  }

  lemma UnnormalState()
    ensures var s := Unnormal();
      Inv(s) && s.Tagi(0) == Special && s.St(0) == Reg(1, 0, 0x3fff) && !s.cw.masks.invalid && s.cw.masks.denormOp
  {
    SpecialFirst();
  }

  lemma SpecialFirst()
    ensures GetTag(2, 0) == Special && (forall i: nat :: 1 <= i < 8 ==> GetTag(2, i) == Valid)
  {
  }

  lemma OneIsOne()
    ensures var r := Converted(Signed64(1)); TagOf(r) == Valid && !DenormalMemory(Signed64(1))
  {
  }

  lemma FcompPopsUnnormal()
    ensures Fits(Signed64(1)) && FcomMemory(Unnormal(), Signed64(1), true).top != Unnormal().top
  {
    hide Unnormal, FcomMemory, NaNOperand, Converted, GetTag, Inv;
    UnnormalState();
    OneIsOne();
    UnnormalIsNaN(Unnormal());
    FcompPopsIff(Unnormal(), Signed64(1));
  }

  lemma UnnormalIsNaN(s: State)
    requires s.St(0) == Reg(1, 0, 0x3fff) && TagOf(Converted(Signed64(1))) == Valid
    ensures IsNaN(s.St(0)) && !NaNOperand(s, Signed64(1))
  {
    hide Converted;
  }

  lemma SettingKeeps(cw: Control, sw: Status, o: Order)
    requires SummaryTrue(cw, sw)
    ensures SummaryTrue(cw, Conditions(sw, o))
  {
    hide SomeUnmasked;
  }

  lemma ComparedKeeps(cw: Control, sw: Status, c: Comp)
    requires SummaryTrue(cw, sw)
    ensures SummaryTrue(cw, Compared(cw, sw, c))
  {
    hide SummaryTrue, Exception, DenormalOperand, Conditions;
    ExceptionKeepsSummary(cw, sw, Invalid);
    SettingKeeps(cw, Exception(cw, sw, Invalid), NoComp);
    SettingKeeps(cw, sw, c.order);
    RaisingKeepsSummary(cw, Conditions(sw, c.order), true);
  }

  lemma FcomStatusKeeps(s: State, m: Memory)
    requires SummaryTrue(s.cw, s.sw) && Fits(m)
    ensures SummaryTrue(s.cw, FcomStatus(s, m).0)
  {
    hide SummaryTrue, Exception, DenormalOperand, Conditions, Compared, Converted, NaNOperand, DenormalMemory, GetTag;
    ExceptionKeepsSummary(s.cw, s.sw, StackUnder);
    ExceptionKeepsSummary(s.cw, s.sw, Invalid);
    SettingKeeps(s.cw, Exception(s.cw, s.sw, StackUnder), NoComp);
    SettingKeeps(s.cw, Exception(s.cw, s.sw, Invalid), NoComp);
    RaisingKeepsSummary(s.cw, s.sw, true);
    var sw := if DenormalMemory(m) then DenormalOperand(s.cw, s.sw) else s.sw;
    ComparedKeeps(s.cw, sw, ComparisonWith(s, m));
  }

  lemma FcomMemoryKeeps(s: State, m: Memory, pop: bool)
    requires Inv(s) && Fits(m)
    ensures Inv(FcomMemory(s, m, pop))
  {
    hide SummaryTrue, TagsTrue, FcomStatus, GetTag, SetTag;
    FcomStatusKeeps(s, m);
    PopKeeps(s.(sw := FcomStatus(s, m).0));
  }

  // ----- wide runs -----

  datatype Wide = Move(x: Instr) | FPREM(nearest: bool) | FRNDINT | FCOMM(m: Memory, pop: bool)

  /** Operands that can be encoded. */
  predicate WideEncodable(w: Wide) {
    match w
    case Move(x) => Encodable(x)
    case FPREM(_) => true
    case FRNDINT => true
    case FCOMM(m, _) => Comparable(m) && Fits(m)
  }

  function WideStep(s: State, w: Wide): State
    requires Inv(s) && WideEncodable(w)
  {
    match w
    case Move(x) => Step(s, x)
    case FPREM(nearest) => DoFpremSpec(s, nearest)
    case FRNDINT => FrndintSpec(s)
    case FCOMM(m, pop) => FcomMemory(s, m, pop)
  }

  lemma DoFpremKeeps(s: State, nearest: bool)
    requires Inv(s)
    ensures Inv(DoFpremSpec(s, nearest))
  {
    hide GetTag, SetTag, SomeUnmasked, Kind, TagOf, Numeric, Difference16, IsNaN, FpremNumbers, Exception,
         DenormalOperand, TagsTrue;
    UnderflowKeeps(s, 0);
    InvalidKeeps(s);
    AfterDenormalKeeps(s, AnyDenormal(s));
    AfterDenormalKeeps(s, true);
    if GoesOn(s) { FpremKeeps(s, nearest); }
    if GoesFar(s) { FarKeeps(s, nearest); }
    if s.Tagi(0) != Empty && s.Tagi(1) != Empty { NaNKeeps(s); }
  }

  lemma NaNKeeps(s: State)
    requires Inv(s) && s.Tagi(0) != Empty && s.Tagi(1) != Empty
    ensures (Kind(s.St(0), s.Tagi(0)) == NaN) == IsNaN(s.St(0)) && (Kind(s.St(1), s.Tagi(1)) == NaN) == IsNaN(s.St(1))
    ensures IsNaN(s.St(0)) || IsNaN(s.St(1)) ==> Inv(TwoOpNaN(s))
  {
    hide GetTag, SetTag, SomeUnmasked, Exception, TagsTrue, SummaryTrue, Kind, TagOf, QuietBitSet, Unsupported;
    TagTrue(s, 0);
    TagTrue(s, 1);
    var x := Survivor(s.St(0), s.St(1));
    if IsNaN(x) {
      NaNTag(x);
      PutKeeps(s, 0, x, Special);
      if !Unsupported(x) {
        PutKeeps(s, 0, WithQuietBit(x), Special);
        RaiseKeeps(s.Put(0, WithQuietBit(x), Special), Invalid);
      }
    }
    IndefiniteTag();
    PutKeeps(s, 0, CONST_QNaN, Special);
    RaiseKeeps(s.Put(0, CONST_QNaN, Special), Invalid);
    RaiseKeeps(s, Invalid);
  }

  lemma IndefiniteTag()
    ensures TagOf(CONST_QNaN) == Special
  {
  }

  lemma NaNTag(r: Reg)
    requires IsNaN(r)
    ensures TagOf(r) == Special && (!Unsupported(r) ==> TagOf(WithQuietBit(r)) == Special)
  {
  }

  lemma InvalidKeeps(s: State)
    requires Inv(s)
    ensures Inv(ArithInvalid(s))
  {
    RaiseKeeps(s, Invalid);
    PutKeeps(s.Raise(Invalid), 0, CONST_QNaN, Special);
  }

  lemma WideStepKeeps(s: State, w: Wide)
    requires Inv(s) && WideEncodable(w)
    ensures Inv(WideStep(s, w))
  {
    match w
    case Move(x) => StepKeeps(s, x);
    case FPREM(nearest) => DoFpremKeeps(s, nearest);
    case FRNDINT => FrndintKeeps(s);
    case FCOMM(m, pop) => FcomMemoryKeeps(s, m, pop);
  }

  predicate WideProgram(p: seq<Wide>) {
    forall w :: w in p ==> WideEncodable(w)
  }

  function WideRun(s: State, p: seq<Wide>): State
    requires Inv(s) && WideProgram(p)
    decreases |p|
  {
    if p == [] then s else
      WideStepKeeps(s, p[0]);
      WideRun(WideStep(s, p[0]), p[1..])
  }

  /** The invariant of every run also holds when remainders, roundings and comparisons
      with memory are mixed in, whatever their operands. */
  lemma {:induction false} EveryWideRun(s: State, p: seq<Wide>)
    requires Inv(s) && WideProgram(p)
    ensures Inv(WideRun(s, p))
    decreases |p|
  {
    if p != [] {
      WideStepKeeps(s, p[0]);
      EveryWideRun(WideStep(s, p[0]), p[1..]);
    }
  }
}
