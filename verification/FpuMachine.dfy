/** The soft FPU as the object that the emulator overwrites step by step. */
module FpuMachine {
  import opened Rounding
  import opened FpuRegs
  import opened FpuState

  class Fpu {
    var controlWord: Control
    var partialStatus: Status
    var tagWord: bv16
    var top: u8
    const regs: array<Reg>

    ghost predicate Valid()
      reads this
    {
      regs.Length == 8
    }

    function S(): State
      requires regs.Length == 8
      reads this, regs
    {
      State(controlWord, partialStatus, tagWord, top, regs[..])
    }

    /** finit_soft_fpu */
    constructor ()
      ensures Valid() && fresh(regs)
      ensures S() == INIT
    {
      controlWord, partialStatus, tagWord, top := CW_INIT, CLEAR, 0xffff, 0;
      regs := new Reg[8](_ => CONST_Z);
    }

    function Phys(i: int): (n: nat)
      reads this
      ensures n < 8
    {
      (top + i) % 8
    }

    function St(i: int): (r: Reg)
      requires regs.Length == 8
      reads this, regs
      ensures r == S().St(i)
    {
      regs[Phys(i)]
    }

    // errors.c

    /** EXCEPTION(ex) */
    method Exception(ex: Ex)
      modifies this`partialStatus
      ensures partialStatus == FpuState.Exception(controlWord, old(partialStatus), ex)
    {
      partialStatus := Flag(partialStatus, ex);
      if Pending(controlWord, partialStatus) {
        partialStatus := partialStatus.(summary := true, backward := true);
      }
      if ex == StackUnder || ex == Precision(false) {
        partialStatus := partialStatus.(c1 := false);
      }
    }

    method SetPrecisionFlag(up: bool)
      modifies this`partialStatus
      ensures partialStatus == FpuState.SetPrecisionFlag(controlWord, old(partialStatus), up)
    {
      if controlWord.masks.precision {
        partialStatus := partialStatus.(flags := partialStatus.flags.(precision := true), c1 := partialStatus.c1 || up);
      } else {
        Exception(Precision(up));
      }
    }

    method SetPrecisionUpDown(up: bool)
      modifies this`partialStatus
      ensures partialStatus == FpuState.SetPrecisionUpDown(controlWord, old(partialStatus), up)
    {
      if controlWord.masks.precision {
        partialStatus := partialStatus.(flags := partialStatus.flags.(precision := true), c1 := up);
      } else {
        Exception(Precision(up));
      }
    }

    method DenormalOperand() returns (unmasked: bool)
      modifies this`partialStatus
      ensures partialStatus == FpuState.DenormalOperand(controlWord, old(partialStatus))
      ensures unmasked == !controlWord.masks.denormOp
    {
      unmasked := !controlWord.masks.denormOp;
      if unmasked {
        Exception(DenormalOp);
      } else {
        partialStatus := partialStatus.(flags := partialStatus.flags.(denormOp := true));
      }
    }

    // fpu_tags.c

    function GetTagi(i: int): (t: Tag)
      requires regs.Length == 8
      reads this, regs
      ensures t == S().Tagi(i)
    {
      GetTag(tagWord, Phys(i))
    }

    method SetTagi(i: int, t: Tag)
      requires Valid()
      modifies this`tagWord
      ensures S() == old(S()).SetTagi(i, t)
    {
      tagWord := SetTag(tagWord, Phys(i), t);
    }

    method Pop()
      requires Valid()
      modifies this`tagWord, this`top
      ensures S() == old(S()).Pop()
    {
      tagWord := PopTag(tagWord, Phys(0));
      top := (top + 1) % 0x100;
    }

    /** FPU_copy_to_regi, FPU_copy_to_reg0 and FPU_copy_to_reg1. */
    method CopyToReg(r: Reg, t: Tag, i: int)
      requires Valid()
      modifies this`tagWord, regs
      ensures S() == old(S()).Put(i, r, t)
    {
      regs[Phys(i)] := r;
      SetTagi(i, t);
    }
  }
}
