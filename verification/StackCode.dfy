/** The stack, constant, sign and comparison instructions as the emulator runs them:
    step by step on the one soft FPU. */
module StackCode {
  import opened Rounding
  import opened FpuRegs
  import opened FpuState
  import opened FpuMachine
  import opened Compare
  import opened StackOps

  // ----- stack faults -----

  method FpuStackOverflow(f: Fpu)
    requires f.Valid()
    modifies f`partialStatus, f`tagWord, f`top, f.regs
    ensures f.S() == StackOverflow(old(f.S()))
  {
    if f.controlWord.masks.invalid {
      f.top := (f.top - 1) % 0x100;
      f.CopyToReg(CONST_QNaN, Special, 0);
    }
    f.Exception(StackOver);
  }

  method FpuStackUnderflow(f: Fpu, i: int)
    requires f.Valid()
    modifies f`partialStatus, f`tagWord, f.regs
    ensures f.S() == StackUnderflow(old(f.S()), i)
  {
    if f.controlWord.masks.invalid {
      f.CopyToReg(CONST_QNaN, Special, i);
    }
    f.Exception(StackUnder);
  }

  // ----- fpu_aux.c -----

  method FldI(f: Fpu, i: StNum)
    requires f.Valid()
    modifies f`partialStatus, f`tagWord, f`top, f.regs
    ensures f.S() == Fld(old(f.S()), i)
  {
    hide GetTag, SetTag, Exception, StackOverflow, StackUnderflow;
    if f.GetTagi(-1) != Empty {
      FpuStackOverflow(f);
      return;
    }
    if f.GetTagi(i) != Empty {
      PushCopy(f, i);
    } else if f.controlWord.masks.invalid {
      FpuStackUnderflow(f, 0);
    } else {
      f.Exception(StackUnder);
    }
  }

  /** push() and FPU_copy_to_reg0 of st(i). */
  method PushCopy(f: Fpu, i: StNum)
    requires f.Valid()
    modifies f`tagWord, f`top, f.regs
    ensures var s := old(f.S()); f.S() == s.Push().Put(0, s.St(i), s.Tagi(i))
  {
    hide GetTag, SetTag;
    var r, tag := f.St(i), f.GetTagi(i);
    f.top := (f.top - 1) % 0x100;
    f.CopyToReg(r, tag, 0);
  }

  method FxchI(f: Fpu, i: StNum)
    requires f.Valid()
    modifies f`partialStatus, f`tagWord, f.regs
    ensures f.S() == Fxch(old(f.S()), i)
  {
    ghost var s := f.S();
    var t0, ti := f.GetTagi(0), f.GetTagi(i);
    assert t0 == s.Tagi(0) && ti == s.Tagi(i) && f.St(0) == s.St(0) && f.St(i) == s.St(i);
    if t0 == Empty {
      if ti == Empty {
        FpuStackUnderflow(f, 0);
        FpuStackUnderflow(f, i);
      } else {
        FillFrom(f, f.St(i), ti, 0, i);
      }
    } else if ti == Empty {
      FillFrom(f, f.St(0), t0, i, 0);
    } else {
      Exchange(f, i);
    }
  }

  method SwapTags(f: Fpu, i: StNum)
    requires f.Valid()
    modifies f`tagWord
    ensures f.S() == old(f.S()).SetTagi(0, old(f.S()).Tagi(i)).SetTagi(i, old(f.S()).Tagi(0))
  {
    var t0, ti := f.GetTagi(0), f.GetTagi(i);
    f.SetTagi(0, ti);
    f.SetTagi(i, t0);
  }

  /** One register is empty: the masked response gives it the other's contents and
      then treats that other one as the empty one. */
  method FillFrom(f: Fpu, r: Reg, tag: Tag, empty: int, other: int)
    requires f.Valid()
    modifies f`partialStatus, f`tagWord, f.regs
    ensures var s := old(f.S());
      f.S() == StackUnderflow(if s.cw.masks.invalid then s.Put(empty, r, tag) else s, other)
  {
    if f.controlWord.masks.invalid {
      f.CopyToReg(r, tag, empty);
    }
    FpuStackUnderflow(f, other);
  }

  /** The last part of fxch_i, when neither register is empty. */
  method Exchange(f: Fpu, i: StNum)
    requires f.Valid()
    modifies f`partialStatus, f`tagWord, f.regs
    ensures var s := old(f.S()); f.S() == NoC1(s).Put(0, s.St(i), s.Tagi(i)).Put(i, s.St(0), s.Tagi(0))
  {
    hide GetTag, SetTag;
    f.partialStatus := ClearC1(f.partialStatus);
    var t := f.St(0);
    f.regs[f.Phys(0)] := f.St(i);
    f.regs[f.Phys(i)] := t;
    SwapTags(f, i);
  }

  /** ffree_ and ffreep. */
  method FfreeI(f: Fpu, i: StNum, pop: bool)
    requires f.Valid()
    modifies f`tagWord, f`top
    ensures var s := old(f.S()).SetTagi(i, Empty); f.S() == if pop then s.Pop() else s
  {
    f.SetTagi(i, Empty);
    if pop { f.Pop(); }
  }

  /** fst_i_ and fstp_i. */
  method FstI(f: Fpu, i: StNum, pop: bool)
    requires f.Valid()
    modifies f`tagWord, f`top, f.regs
    ensures var s := Fst(old(f.S()), i); f.S() == if pop then s.Pop() else s
  {
    f.CopyToReg(f.St(0), f.GetTagi(0), i);
    if pop { f.Pop(); }
  }

  method FclexCode(f: Fpu)
    requires f.Valid()
    modifies f`partialStatus
    ensures f.S() == old(f.S()).(sw := Fclex(old(f.S()).sw))
  {
    f.partialStatus := f.partialStatus.(
      flags := Six(false, false, false, false, false, false),
      stackFault := false, summary := false, backward := false);
  }

  method Finit(f: Fpu)
    requires f.Valid()
    modifies f, f.regs
    ensures f.S() == INIT
  {
    var i := 0;
    while i < 8
      invariant 0 <= i <= 8 && f.Valid()
      invariant forall j :: 0 <= j < i ==> f.regs[j] == CONST_Z
    {
      f.regs[i] := CONST_Z;
      i := i + 1;
    }
    f.controlWord, f.partialStatus, f.tagWord, f.top := CW_INIT, CLEAR, 0xffff, 0;
    assert f.regs[..] == INIT.st;
  }

  // ----- fpu_trig.c, fpu_etc.c -----

  /** fdecstp and fincstp. */
  method MoveTop(f: Fpu, up: bool)
    requires f.Valid()
    modifies f`partialStatus, f`top
    ensures f.S() == if up then NoC1(old(f.S())).Unpush() else NoC1(old(f.S())).Push()
  {
    f.partialStatus := ClearC1(f.partialStatus);
    f.top := if up then (f.top + 1) % 0x100 else (f.top - 1) % 0x100;
  }

  method Fchs(f: Fpu)
    requires f.Valid()
    modifies f`partialStatus, f`tagWord, f.regs
    ensures f.S() == WithSt0(old(f.S()), FlipSign(old(f.S()).St(0)))
  {
    if f.GetTagi(0) != Empty {
      var r := f.St(0);
      f.regs[f.Phys(0)] := r.(exp := if r.exp >= 0x8000 then r.exp - 0x8000 else r.exp + 0x8000);
      f.partialStatus := ClearC1(f.partialStatus);
    } else {
      FpuStackUnderflow(f, 0);
    }
  }

  method Fabs(f: Fpu)
    requires f.Valid()
    modifies f`partialStatus, f`tagWord, f.regs
    ensures f.S() == WithSt0(old(f.S()), ClearSign(old(f.S()).St(0)))
  {
    if f.GetTagi(0) != Empty {
      var r := f.St(0);
      f.regs[f.Phys(0)] := r.(exp := if r.exp >= 0x8000 then r.exp - 0x8000 else r.exp);
      f.partialStatus := ClearC1(f.partialStatus);
    } else {
      FpuStackUnderflow(f, 0);
    }
  }

  // ----- reg_constant.c -----

  method FldConstant(f: Fpu, c: Reg, adj: int, tag: Tag)
    requires f.Valid() && 0 <= c.sigl + adj < TWO32
    modifies f`partialStatus, f`tagWord, f`top, f.regs
    ensures var s := old(f.S());
      f.S() == if Full(s) then StackOverflow(s) else NoC1(s.Push().Put(0, c.(sigl := c.sigl + adj), tag))
  {
    if f.GetTagi(-1) != Empty {
      FpuStackOverflow(f);
      return;
    }
    f.top := (f.top - 1) % 0x100;
    f.regs[f.Phys(0)] := c.(sigl := c.sigl + adj);
    f.SetTagi(0, tag);
    f.partialStatus := ClearC1(f.partialStatus);
  }

  predicate DownOrChop(rc: Mode) { rc == DOWN || rc == CHOP }

  /** fconst: one entry of constants_table. */
  method Fconst(f: Fpu, k: Constant)
    requires f.Valid()
    modifies f`partialStatus, f`tagWord, f`top, f.regs
    ensures f.S() == FldConst(old(f.S()), k)
  {
    var rc := f.controlWord.rc;
    var adj := if DownOrChop(rc) then -1 else 0;
    match k {
      case One => FldConstant(f, CONST_1, 0, Valid);
      case Log2Ten => FldConstant(f, CONST_L2T, if rc == UP then 1 else 0, Valid);
      case Log2E => FldConstant(f, CONST_L2E, adj, Valid);
      case Pi => FldConstant(f, CONST_PI, adj, Valid);
      case Log10Two => FldConstant(f, CONST_LG2, adj, Valid);
      case LnTwo => FldConstant(f, CONST_LN2, adj, Valid);
      case Nought => FldConstant(f, CONST_Z, 0, Zero);
    }
  }

  // ----- reg_compare.c -----

  method SetConditions(f: Fpu, o: Order)
    requires f.Valid()
    modifies f`partialStatus
    ensures f.S() == old(f.S()).(sw := Conditions(old(f.S()).sw, o))
  {
    match o {
      case ALess => f.partialStatus := SetCC(f.partialStatus, false, false, false, true);
      case Equal => f.partialStatus := SetCC(f.partialStatus, true, false, false, false);
      case AGreater => f.partialStatus := SetCC(f.partialStatus, false, false, false, false);
      case NoComp => f.partialStatus := SetCC(f.partialStatus, true, true, false, true);
    }
  }

  /** FPU_compare_st_data: st(0) with a loaded operand. A NaN does not stop the
      instruction, even when the exception is not masked. */
  method CompareStData(f: Fpu, loaded: Reg, tag: Tag) returns (stop: bool)
    requires f.Valid() && tag == TagOf(loaded) && f.S().Tagi(0) == TagOf(f.S().St(0))
    modifies f`partialStatus
    ensures var s, c := old(f.S()), CompareRegs(loaded, tag, old(f.S()).St(0), TagOf(old(f.S()).St(0)));
      && f.S() == s.(sw :=
        if c.nan then Conditions(Exception(s.cw, s.sw, Invalid), NoComp)
        else if c.denormal then DenormalOperand(s.cw, Conditions(s.sw, c.order))
        else Conditions(s.sw, c.order))
      && stop == (!c.nan && c.denormal && !s.cw.masks.denormOp)
  {
    hide Exception, DenormalOperand, GetTag;
    var c := CompareRegs(loaded, tag, f.St(0), f.GetTagi(0));
    if c.nan {
      f.Exception(Invalid);
      SetConditions(f, NoComp);
    } else {
      SetConditions(f, c.order);
    }
    stop := false;
    if c.denormal {
      stop := f.DenormalOperand();
    }
  }

  /** compare_st_st, and compare_u_st_st when quiet. */
  method CompareStSt(f: Fpu, i: StNum, quiet: bool) returns (stop: bool)
    requires f.Valid() && Inv(f.S())
    modifies f`partialStatus
    ensures f.S() == Fcom(old(f.S()), i, quiet) && stop == CompareSt(old(f.S()), i, quiet).1
  {
    if f.GetTagi(0) == Empty || f.GetTagi(i) == Empty {
      SetConditions(f, NoComp);
      f.Exception(StackUnder);
      return !f.controlWord.masks.invalid;
    }
    TagAt(f.S(), 0);
    TagAt(f.S(), i);
    var c := CompareRegs(f.St(i), f.GetTagi(i), f.St(0), f.GetTagi(0));
    stop := Report(f, c, quiet);
  }

  /** What the comparisons of two registers make of the result. */
  method Report(f: Fpu, c: Comp, quiet: bool) returns (stop: bool)
    requires f.Valid()
    modifies f`partialStatus
    ensures var s, (sw, halt) := old(f.S()), Reported(old(f.S()), c, quiet); f.S() == s.(sw := sw) && stop == halt
  {
    if c.nan {
      SetConditions(f, NoComp);
      if quiet && !c.signalling { return false; }
      f.Exception(Invalid);
      return !f.controlWord.masks.invalid;
    }
    SetConditions(f, c.order);
    stop := false;
    if c.denormal {
      stop := f.DenormalOperand();
    }
  }

  lemma TagAt(s: State, i: int)
    requires Inv(s)
    ensures s.Tagi(i) == Empty || s.Tagi(i) == TagOf(s.St(i))
  {
    assert GetTag(s.tw, s.Phys(i)) == Empty || GetTag(s.tw, s.Phys(i)) == TagOf(s.st[s.Phys(i)]);
  }

  /** fcompst, fcompp, fucomp and fucompp. */
  method CompareAndPop(f: Fpu, i: StNum, quiet: bool, pops: nat)
    requires f.Valid() && Inv(f.S()) && 1 <= pops <= 2
    modifies f`partialStatus, f`tagWord, f`top
    ensures f.S() == Fcomp(old(f.S()), i, quiet, pops)
  {
    var stop := CompareStSt(f, i, quiet);
    if !stop {
      f.Pop();
      if pops == 2 { f.Pop(); }
    }
  }
}
