/** What the data-movement, comparison, constant and environment instructions of
    extras/x87-emu do to the whole state, as functions on snapshots. */
module StackOps {
  import opened Rounding
  import opened FpuRegs
  import opened FpuState
  import opened StoreReal
  import opened LoadReal
  import opened IntegerData
  import opened PackedDecimal
  import opened Compare

  /** FPU_rm: a register named relative to the top of the stack. */
  type StNum = i: int | 0 <= i < 8

  // ----- what every run keeps -----

  /** Tags of registers in use are those that FPU_tagof gives their contents. */
  ghost predicate TagsTrue(tw: bv16, st: Stack) {
    forall i: nat :: i < 8 ==> GetTag(tw, i) == Empty || GetTag(tw, i) == TagOf(st[i])
  }

  ghost predicate Inv(s: State) {
    TagsTrue(s.tw, s.st) && SummaryTrue(s.cw, s.sw)
  }

  // ----- stack faults (errors.c) -----

  function StackOverflow(s: State): State {
    (if s.cw.masks.invalid then s.Push().Put(0, CONST_QNaN, Special) else s).Raise(StackOver)
  }

  function StackUnderflow(s: State, i: int): State {
    (if s.cw.masks.invalid then s.Put(i, CONST_QNaN, Special) else s).Raise(StackUnder)
  }

  /** STACK_OVERFLOW: the register that a push would need is in use. */
  predicate Full(s: State) { s.Tagi(-1) != Empty }

  function NoC1(s: State): State { s.(sw := ClearC1(s.sw)) }

  // ----- fpu_aux.c, fpu_etc.c, reg_constant.c -----

  function Fld(s: State, i: StNum): State {
    if Full(s) then StackOverflow(s)
    else if s.Tagi(i) != Empty then s.Push().Put(0, s.St(i), s.Tagi(i))
    else if s.cw.masks.invalid then StackUnderflow(s, 0)
    else s.Raise(StackUnder)
  }

  function Fxch(s: State, i: StNum): State {
    var t0, ti, r0, ri := s.Tagi(0), s.Tagi(i), s.St(0), s.St(i);
    if t0 == Empty && ti == Empty then StackUnderflow(StackUnderflow(s, 0), i)
    else if t0 == Empty then StackUnderflow(if s.cw.masks.invalid then s.Put(0, ri, ti) else s, i)
    else if ti == Empty then StackUnderflow(if s.cw.masks.invalid then s.Put(i, r0, t0) else s, 0)
    else NoC1(s).Put(0, ri, ti).Put(i, r0, t0)
  }

  function Fst(s: State, i: StNum): State { s.Put(i, s.St(0), s.Tagi(0)) }

  function FlipSign(r: Reg): Reg { r.(exp := (r.exp + 0x8000) % 0x1_0000) }

  function ClearSign(r: Reg): Reg { r.(exp := r.exp % 0x8000) }

  /** fchs and fabs do not look at the tag beyond emptiness. */
  function WithSt0(s: State, r: Reg): State {
    if s.Tagi(0) != Empty then NoC1(s).(st := s.st[s.Phys(0) := r]) else StackUnderflow(s, 0)
  }

  datatype Constant = One | Log2Ten | Log2E | Pi | Log10Two | LnTwo | Nought

  /** The constant and the adjustment of its low word for the rounding mode. */
  function ConstantReg(k: Constant, rc: Mode): Reg {
    var down := if rc == DOWN || rc == CHOP then 1 else 0;
    match k
    case One => CONST_1
    case Log2Ten => if rc == UP then CONST_L2T.(sigl := CONST_L2T.sigl + 1) else CONST_L2T
    case Log2E => CONST_L2E.(sigl := CONST_L2E.sigl - down)
    case Pi => CONST_PI.(sigl := CONST_PI.sigl - down)
    case Log10Two => CONST_LG2.(sigl := CONST_LG2.sigl - down)
    case LnTwo => CONST_LN2.(sigl := CONST_LN2.sigl - down)
    case Nought => CONST_Z
  }

  function FldConst(s: State, k: Constant): State {
    if Full(s) then StackOverflow(s)
    else NoC1(s.Push().Put(0, ConstantReg(k, s.cw.rc), if k == Nought then Zero else Valid))
  }

  // ----- comparisons (reg_compare.c) -----

  function Conditions(sw: Status, o: Order): Status {
    SetCC(sw, o == Equal || o == NoComp, o == NoComp, false, o == ALess || o == NoComp)
  }

  /** compare_st_st, and compare_u_st_st when quiet: the new status word, and whether
      an unmasked exception stops the instruction. */
  function CompareSt(s: State, i: StNum, quiet: bool): (Status, bool)
    requires Inv(s)
  {
    if s.Tagi(0) == Empty || s.Tagi(i) == Empty then
      (Exception(s.cw, Conditions(s.sw, NoComp), StackUnder), !s.cw.masks.invalid)
    else
      Reported(s, CompareRegs(s.St(i), s.Tagi(i), s.St(0), s.Tagi(0)), quiet)
  }

  function Reported(s: State, c: Comp, quiet: bool): (Status, bool) {
    if c.nan then
      if quiet && !c.signalling then (Conditions(s.sw, NoComp), false)
      else (Exception(s.cw, Conditions(s.sw, NoComp), Invalid), !s.cw.masks.invalid)
    else if c.denormal then (DenormalOperand(s.cw, Conditions(s.sw, c.order)), !s.cw.masks.denormOp)
    else (Conditions(s.sw, c.order), false)
  }

  function Fcom(s: State, i: StNum, quiet: bool): State
    requires Inv(s)
  {
    s.(sw := CompareSt(s, i, quiet).0)
  }

  /** fcompp and fucompp pop twice. */
  function Fcomp(s: State, i: StNum, quiet: bool, pops: nat): State
    requires Inv(s) && 1 <= pops <= 2
  {
    var s1 := Fcom(s, i, quiet);
    if CompareSt(s, i, quiet).1 then s1 else if pops == 1 then s1.Pop() else s1.Pop().Pop()
  }

  // ----- loads from memory (load_store.c) -----

  /** isNaN */
  predicate NaNBits(r: Reg) { r.Exponent() == EXP_OVER && !(r.sigh == BIT31 && r.sigl == 0) }

  /** real_1op_NaN: the operand, the status, and whether the instruction goes on. */
  function RealNaN(cw: Control, sw: Status, r: Reg): (Reg, Status, bool) {
    if Unsupported(r) then
      (if cw.masks.invalid then CONST_QNaN else r, Exception(cw, sw, Invalid), cw.masks.invalid)
    else if r.sigh < 0xc000_0000 then
      (if cw.masks.invalid then r.(sigh := r.sigh + 0x4000_0000) else r, Exception(cw, sw, Invalid), cw.masks.invalid)
    else (r, sw, true)
  }

  function PushLoaded(s: State, r: Reg): State {
    if Full(s) then StackOverflow(s) else NoC1(s).Push().Put(0, r, TagOf(r))
  }

  function LoadStatus(s: State, denormal: bool): Status {
    if denormal then DenormalOperand(s.cw, ClearC1(s.sw)) else ClearC1(s.sw)
  }

  /** fld m32real and fld m64real, given what the conversion returned. */
  function PushReal(s: State, r: Reg, denormal: bool): State {
    if Full(s) then StackOverflow(s)
    else if TagOf(r) == Special && NaNBits(r) then PushNaN(s, r, LoadStatus(s, denormal))
    else s.(sw := LoadStatus(s, denormal)).Push().Put(0, r, TagOf(r))
  }

  function PushNaN(s: State, r: Reg, sw: Status): State {
    var (r', sw', ok) := RealNaN(s.cw, sw, r);
    if ok then s.(sw := sw').Push().Put(0, r', Special) else s.(sw := sw')
  }

  // ----- stores to memory (load_store.c) -----

  function Fldcw(s: State, cw: Control): State {
    s.(cw := cw.(bit6 := true), sw := RecomputeSummary(cw, s.sw))
  }

  function Fclex(sw: Status): Status {
    sw.(flags := CLEAR.flags, stackFault := false, summary := false, backward := false)
  }

  // ----- the environment (reg_ld_str.c) -----

  /** The tag word with the given tags. */
  function TagWord(tags: seq<Tag>, n: nat): bv16
    requires n <= |tags| == 8
  {
    if n == 0 then 0 else SetTag(TagWord(tags, n - 1), n - 1, tags[n - 1])
  }

  /** A memory image of the environment, in the 32-bit layout. */
  datatype Env = Env(cw: Control, sw: Status, top: StNum, tw: bv16)

  /** Of an environment only emptiness is believed; a register that was empty gets
      the tag of its contents, and one in use keeps its tag. */
  function LoadedTag(theirs: bv16, mine: bv16, st: Stack, i: nat): Tag
    requires i < 8
  {
    if GetTag(theirs, i) == Empty then Empty
    else if GetTag(mine, i) == Empty then TagOf(st[i])
    else GetTag(mine, i)
  }

  function LoadedTags(theirs: bv16, mine: bv16, st: Stack): (tags: seq<Tag>)
    ensures |tags| == 8
  {
    seq(8, i requires 0 <= i < 8 => LoadedTag(theirs, mine, st, i))
  }

  function Fldenv(s: State, e: Env): State {
    var cw := e.cw.(bit7 := false, high := 0);
    State(cw, RecomputeSummary(cw, e.sw), TagWord(LoadedTags(e.tw, s.tw, s.st), 8), e.top, s.st)
  }

  /** The registers in stack order: two copies split at the top, and back. */
  function Rotated(st: Stack, top: StNum): Stack { st[top..] + st[..top] }

  function Unrotated(image: Stack, top: StNum): Stack { image[8 - top..] + image[..8 - top] }

  function OwnTags(tw: bv16, st: Stack): (tags: seq<Tag>)
    ensures |tags| == 8
  {
    seq(8, i requires 0 <= i < 8 => if GetTag(tw, i) != Empty then TagOf(st[i]) else Empty)
  }

  function Frstor(s: State, e: Env, image: Stack): State {
    var s1 := Fldenv(s, e);
    var st := Unrotated(image, e.top);
    s1.(st := st, tw := TagWord(OwnTags(s1.tw, st), 8))
  }

  function Reserved(cw: Control): Control { cw.(bit6 := true, bit7 := false, high := 0) }

  /** What fstenv writes and what it leaves: every exception masked. */
  function EnvOf(s: State): Env { Env(Reserved(s.cw), s.sw, s.top % 8, s.tw) }

  function Fstenv(s: State): State {
    s.(cw := Reserved(s.cw).(masks := ALL_MASKED), sw := s.sw.(summary := false, backward := false))
  }
}
