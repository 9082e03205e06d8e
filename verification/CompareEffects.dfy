/** What a comparison leaves: condition codes, exception flags, and how many registers
    it pops, from what the operands stand for. */
module CompareEffects {
  import opened Rounding
  import opened FpuRegs
  import opened FpuState
  import opened StoreReal
  import opened LoadReal
  import opened IntegerData
  import opened Compare
  import opened StackOps
  import opened StackRuns
  import opened StackMeaning
  import opened Effects
  import opened WideRuns

  /** C0 for less, C3 for equal, all three when one is a NaN. C1 is clear. */
  ghost predicate Ordered(sw: Status, x: Reg, y: Reg) {
    && !sw.c1
    && if IsNaN(x) || IsNaN(y) then sw.c0 && sw.c2 && sw.c3
       else sw.c0 == Below(Number(x), Number(y)) && sw.c3 == (Number(x) == Number(y)) && !sw.c2
  }

  predicate Unordered(sw: Status) { sw.c0 && sw.c2 && sw.c3 && !sw.c1 }

  predicate IsDenormal(r: Reg) { Kind(r, TagOf(r)) == Denormal }

  /** A NaN is an invalid operation, but a quiet one is not for fucom. */
  ghost predicate NaNRaises(x: Reg, y: Reg, quiet: bool) {
    (IsNaN(x) && !(quiet && QuietNaN(x))) || (IsNaN(y) && !(quiet && QuietNaN(y)))
  }

  ghost predicate DenormalRaises(x: Reg, y: Reg) { !IsNaN(x) && !IsNaN(y) && (IsDenormal(x) || IsDenormal(y)) }

  /** An exception that is not masked stops fcom st(i). */
  ghost predicate Stops(s: State, i: StNum, quiet: bool) {
    if s.Tagi(0) == Empty || s.Tagi(i) == Empty then !s.cw.masks.invalid
    else
      || (NaNRaises(s.St(0), s.St(i), quiet) && !s.cw.masks.invalid)
      || (DenormalRaises(s.St(0), s.St(i)) && !s.cw.masks.denormOp)
  }

  // ----- registers -----

  /** What Reported makes of the comparison of x with y. */
  lemma ReportedEffect(s: State, x: Reg, y: Reg, quiet: bool)
    ensures var (sw, stop) := Reported(s, CompareRegs(y, TagOf(y), x, TagOf(x)), quiet);
      && Ordered(sw, x, y) && sw.stackFault == s.sw.stackFault
      && sw.flags == s.sw.flags.(invalid := s.sw.flags.invalid || NaNRaises(x, y, quiet),
                                 denormOp := s.sw.flags.denormOp || DenormalRaises(x, y))
      && stop == ((NaNRaises(x, y, quiet) && !s.cw.masks.invalid) || (DenormalRaises(x, y) && !s.cw.masks.denormOp))
  {
    hide Exception, DenormalOperand, Below, Number, QuietNaN, CompareRegs, Kind, TagOf;
    CompareCorrect(y, x);
    var c := CompareRegs(y, TagOf(y), x, TagOf(x));
    ExceptionSets(s.cw, Conditions(s.sw, NoComp), Invalid);
    DenormalSets(s.cw, Conditions(s.sw, c.order));
    assert Also(s.sw.flags, Invalid) == s.sw.flags.(invalid := true);
  }

  /** fcom and fucom on two registers in use. */
  lemma FcomEffect(s: State, i: StNum, quiet: bool)
    requires Inv(s) && s.Tagi(0) != Empty && s.Tagi(i) != Empty
    ensures var s', x, y := Step(s, FCOM(i, quiet, 0)), s.St(0), s.St(i);
      && SameStack(s, s') && s'.cw == s.cw
      && Ordered(s'.sw, x, y) && s'.sw.stackFault == s.sw.stackFault
      && s'.sw.flags == s.sw.flags.(invalid := s.sw.flags.invalid || NaNRaises(x, y, quiet),
                                    denormOp := s.sw.flags.denormOp || DenormalRaises(x, y))
  {
    hide Reported, Ordered, NaNRaises, DenormalRaises, TagOf, GetTag;
    TagTrue(s, 0);
    TagTrue(s, i);
    ReportedEffect(s, s.St(0), s.St(i), quiet);
  }

  /** On an empty register both are a stack underflow, and unordered. */
  lemma FcomFaults(s: State, i: StNum, quiet: bool)
    requires Inv(s) && (s.Tagi(0) == Empty || s.Tagi(i) == Empty)
    ensures var s' := Step(s, FCOM(i, quiet, 0));
      && SameStack(s, s') && s'.cw == s.cw
      && Unordered(s'.sw) && s'.sw.stackFault && s'.sw.flags == s.sw.flags.(invalid := true)
  {
    hide Exception, GetTag;
    ExceptionSets(s.cw, Conditions(s.sw, NoComp), StackUnder);
    assert Also(s.sw.flags, StackUnder) == s.sw.flags.(invalid := true);
  }

  lemma StopsIff(s: State, i: StNum, quiet: bool)
    requires Inv(s)
    ensures CompareSt(s, i, quiet).1 == Stops(s, i, quiet)
  {
    hide Reported, Ordered, NaNRaises, DenormalRaises, TagOf, GetTag;
    if s.Tagi(0) != Empty && s.Tagi(i) != Empty {
      TagTrue(s, 0);
      TagTrue(s, i);
      ReportedEffect(s, s.St(0), s.St(i), quiet);
    }
  }

  /** fcomp, fcompp, fucomp and fucompp compare like fcom and fucom and then pop one
      or two registers, unless an exception that is not masked stops them. */
  lemma FcompPops(s: State, i: StNum, quiet: bool, pops: nat)
    requires Inv(s) && 1 <= pops && Encodable(FCOM(i, quiet, pops))
    ensures var s', compared := Step(s, FCOM(i, quiet, pops)), Step(s, FCOM(i, quiet, 0));
      && s'.sw == compared.sw && s'.cw == s.cw
      && if Stops(s, i, quiet) then SameStack(s, s') else Pops(s, s', pops)
  {
    hide CompareSt, Stops, GetTag, SetTag;
    StopsIff(s, i, quiet);
    var s1 := Fcom(s, i, quiet);
    assert SameStack(s, s1);
    PopPops(s1);
    PopTwice(s1);
    StillPops(s, s1, s1.Pop(), 1);
    StillPops(s, s1, s1.Pop().Pop(), 2);
  }

  lemma StillPops(s: State, s1: State, s': State, n: nat)
    requires Pops(s1, s', n) && SameStack(s, s1)
    ensures Pops(s, s', n)
  {
    hide GetTag;
    forall j: int ensures s.St(j) == s1.St(j) && s.Tagi(j) == s1.Tagi(j) {}
  }

  // ----- memory -----

  /** What Compared makes of the comparison of x with y. */
  lemma ComparedEffect(cw: Control, sw: Status, x: Reg, y: Reg)
    ensures var sw' := Compared(cw, sw, CompareRegs(y, TagOf(y), x, TagOf(x)));
      && Ordered(sw', x, y) && sw'.stackFault == sw.stackFault
      && sw'.flags == sw.flags.(invalid := sw.flags.invalid || IsNaN(x) || IsNaN(y),
                                denormOp := sw.flags.denormOp || DenormalRaises(x, y))
  {
    hide Exception, DenormalOperand, Below, Number, QuietNaN, CompareRegs, Kind, TagOf;
    CompareCorrect(y, x);
    var c := CompareRegs(y, TagOf(y), x, TagOf(x));
    ExceptionSets(cw, sw, Invalid);
    DenormalSets(cw, Conditions(sw, c.order));
    assert Also(sw.flags, Invalid) == sw.flags.(invalid := true);
  }

  lemma NaNOperandIsNaN(s: State, m: Memory)
    requires Inv(s) && Fits(m) && s.Tagi(0) != Empty && NaNOperand(s, m)
    ensures IsNaN(s.St(0)) || IsNaN(Converted(m))
  {
    hide GetTag, Converted;
    TagTrue(s, 0);
  }

  /** fcom and fcomp with memory on a register in use: codes and flags, and that fcomp
      pops unless a NaN that isNaN knows or a denormal operand stops it. */
  lemma FcomMemoryEffect(s: State, m: Memory, pop: bool)
    requires Inv(s) && Fits(m) && s.Tagi(0) != Empty
    ensures var s', x, y := FcomMemory(s, m, pop), s.St(0), Converted(m);
      && Ordered(s'.sw, x, y) && s'.sw.stackFault == s.sw.stackFault && s'.cw == s.cw
      && s'.sw.flags == s.sw.flags.(
        invalid := s.sw.flags.invalid || IsNaN(x) || IsNaN(y),
        denormOp := s.sw.flags.denormOp || (!NaNOperand(s, m) && (DenormalMemory(m) || DenormalRaises(x, y))))
      && if pop && (if NaNOperand(s, m) then s.cw.masks.invalid
                    else s.cw.masks.denormOp || !(DenormalMemory(m) || DenormalRaises(x, y)))
         then Pops(s, s', 1) else SameStack(s, s')
  {
    hide FcomStatus, Ordered, NaNOperand, DenormalMemory, DenormalRaises, Converted, GetTag, SetTag, IsNaN;
    FcomStatusEffect(s, m);
    var s1 := s.(sw := FcomStatus(s, m).0);
    assert SameStack(s, s1);
    PopPops(s1);
    StillPops(s, s1, s1.Pop(), 1);
  }

  lemma FcomStatusEffect(s: State, m: Memory)
    requires Inv(s) && Fits(m) && s.Tagi(0) != Empty
    ensures var (sw, pops), x, y := FcomStatus(s, m), s.St(0), Converted(m);
      && Ordered(sw, x, y) && sw.stackFault == s.sw.stackFault
      && sw.flags == s.sw.flags.(
        invalid := s.sw.flags.invalid || IsNaN(x) || IsNaN(y),
        denormOp := s.sw.flags.denormOp || (!NaNOperand(s, m) && (DenormalMemory(m) || DenormalRaises(x, y))))
      && pops == if NaNOperand(s, m) then s.cw.masks.invalid
                 else s.cw.masks.denormOp || !(DenormalMemory(m) || DenormalRaises(x, y))
  {
    hide NaNOperand, Ordered, DenormalRaises, IsNaN, Converted, DenormalMemory, GetTag, FcomStatus;
    if NaNOperand(s, m) { NaNStatusEffect(s, m); } else { NumberStatusEffect(s, m); }
  }

  lemma NaNStatusEffect(s: State, m: Memory)
    requires Inv(s) && Fits(m) && s.Tagi(0) != Empty && NaNOperand(s, m)
    ensures var (sw, pops) := FcomStatus(s, m);
      && Ordered(sw, s.St(0), Converted(m)) && sw.stackFault == s.sw.stackFault
      && (IsNaN(s.St(0)) || IsNaN(Converted(m)))
      && sw.flags == s.sw.flags.(invalid := true) && pops == s.cw.masks.invalid
  {
    hide NaNOperand, Exception, IsNaN, Converted, GetTag, Inv;
    NaNOperandIsNaN(s, m);
    ExceptionSets(s.cw, s.sw, Invalid);
    assert Also(s.sw.flags, Invalid) == s.sw.flags.(invalid := true);
  }

  lemma NumberStatusEffect(s: State, m: Memory)
    requires Inv(s) && Fits(m) && s.Tagi(0) != Empty && !NaNOperand(s, m)
    ensures var (sw, pops), x, y := FcomStatus(s, m), s.St(0), Converted(m);
      && Ordered(sw, x, y) && sw.stackFault == s.sw.stackFault
      && sw.flags == s.sw.flags.(invalid := s.sw.flags.invalid || IsNaN(x) || IsNaN(y),
                                 denormOp := s.sw.flags.denormOp || DenormalMemory(m) || DenormalRaises(x, y))
      && pops == (s.cw.masks.denormOp || !(DenormalMemory(m) || DenormalRaises(x, y)))
  {
    hide NaNOperand, Exception, DenormalOperand, Ordered, Compared, CompareRegs, Kind, TagOf, Converted,
         DenormalMemory, GetTag, Below, Number, Inv;
    var x, y := s.St(0), Converted(m);
    CompareCorrect(y, x);
    DenormalSets(s.cw, s.sw);
    ComparedEffect(s.cw, if DenormalMemory(m) then DenormalOperand(s.cw, s.sw) else s.sw, x, y);
  }

  lemma FcomMemoryFaults(s: State, m: Memory, pop: bool)
    requires Inv(s) && Fits(m) && s.Tagi(0) == Empty
    ensures var s' := FcomMemory(s, m, pop);
      && Unordered(s'.sw) && s'.sw.stackFault && s'.sw.flags == s.sw.flags.(invalid := true) && s'.cw == s.cw
      && if pop && s.cw.masks.invalid then Pops(s, s', 1) else SameStack(s, s')
  {
    hide Exception, GetTag, SetTag, Converted;
    ExceptionSets(s.cw, s.sw, StackUnder);
    assert Also(s.sw.flags, StackUnder) == s.sw.flags.(invalid := true);
    var s1 := s.(sw := Conditions(Exception(s.cw, s.sw, StackUnder), NoComp));
    assert SameStack(s, s1);
    PopPops(s1);
    StillPops(s, s1, s1.Pop(), 1);
  }
}
