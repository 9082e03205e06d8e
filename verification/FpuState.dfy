/** The soft FPU's state (struct i387_soft_struct in extras/x87-emu/fpu_system.h), the
    packed tag word of fpu_tags.c and the exception flags of errors.c. Each operation
    is a function on snapshots of the state. */
module FpuState {
  import opened Rounding
  import opened FpuRegs

  // ----- the status and control words -----

  /** The six exceptions: as flags in the status word, as masks in the control word. */
  datatype Six = Six(invalid: bool, denormOp: bool, zeroDiv: bool, overflow: bool, underflow: bool, precision: bool)

  /** The status word, bit by bit; the stack pointer is kept outside it. */
  datatype Status = Status(
    flags: Six, stackFault: bool, summary: bool, c0: bool, c1: bool, c2: bool, c3: bool, backward: bool)

  const CLEAR := Status(Six(false, false, false, false, false, false), false, false, false, false, false, false, false)

  /** The control word: the masks, two reserved bits, precision and rounding
      control, bit 12, and three more reserved bits. */
  datatype Control = Control(masks: Six, bit6: bool, bit7: bool, pc: nat, rc: Mode, bit12: bool, high: nat)

  const ALL_MASKED := Six(true, true, true, true, true, true)

  /** 0x037f */
  const CW_INIT := Control(ALL_MASKED, true, false, 3, RND, false, 0)

  /** What FPU_exception is called with. */
  datatype Ex = StackOver | StackUnder | Precision(up: bool) | Underflow | Overflow | DenormalOp | Invalid

  predicate SomeUnmasked(flags: Six, masks: Six) {
    || (flags.invalid && !masks.invalid) || (flags.denormOp && !masks.denormOp)
    || (flags.zeroDiv && !masks.zeroDiv) || (flags.overflow && !masks.overflow)
    || (flags.underflow && !masks.underflow) || (flags.precision && !masks.precision)
  }

  /** An exception is pending and not masked. */
  predicate Pending(cw: Control, sw: Status) {
    SomeUnmasked(sw.flags, cw.masks)
  }

  /** The summary bits say exactly whether an unmasked exception is pending. */
  predicate SummaryTrue(cw: Control, sw: Status) {
    sw.summary == Pending(cw, sw) && sw.backward == Pending(cw, sw)
  }

  // ----- exceptions (errors.c) -----

  function FlagBits(flags: Six, ex: Ex): Six {
    match ex
    case StackOver => flags.(invalid := true)
    case StackUnder => flags.(invalid := true)
    case Precision(_) => flags.(precision := true)
    case Underflow => flags.(underflow := true)
    case Overflow => flags.(overflow := true)
    case DenormalOp => flags.(denormOp := true)
    case Invalid => flags.(invalid := true)
  }

  /** partial_status |= n */
  function Flag(sw: Status, ex: Ex): Status {
    sw.(flags := FlagBits(sw.flags, ex),
        stackFault := sw.stackFault || ex == StackOver || ex == StackUnder,
        c1 := sw.c1 || ex == StackOver || ex == Precision(true))
  }

  /** FPU_exception for everything but internal errors. */
  function Exception(cw: Control, sw: Status, ex: Ex): Status {
    var sw1 := Flag(sw, ex);
    var sw2 := if Pending(cw, sw1) then sw1.(summary := true, backward := true) else sw1;
    if ex == StackUnder || ex == Precision(false) then sw2.(c1 := false) else sw2
  }

  /** set_precision_flag: its masked fast path never clears C1. */
  function SetPrecisionFlag(cw: Control, sw: Status, up: bool): Status {
    if cw.masks.precision then sw.(flags := sw.flags.(precision := true), c1 := sw.c1 || up)
    else Exception(cw, sw, Precision(up))
  }

  /** set_precision_flag_up and set_precision_flag_down. */
  function SetPrecisionUpDown(cw: Control, sw: Status, up: bool): Status {
    if cw.masks.precision then sw.(flags := sw.flags.(precision := true), c1 := up)
    else Exception(cw, sw, Precision(up))
  }

  function DenormalOperand(cw: Control, sw: Status): Status {
    if cw.masks.denormOp then sw.(flags := sw.flags.(denormOp := true)) else Exception(cw, sw, DenormalOp)
  }

  /** setcc */
  function SetCC(sw: Status, c3: bool, c2: bool, c1: bool, c0: bool): Status {
    sw.(c3 := c3, c2 := c2, c1 := c1, c0 := c0)
  }

  function ClearC1(sw: Status): Status { sw.(c1 := false) }

  /** What fldcw and fldenv do with the summary bits. */
  function RecomputeSummary(cw: Control, sw: Status): Status {
    sw.(summary := Pending(cw, sw), backward := Pending(cw, sw))
  }

  /** Flags only accumulate. */
  lemma FlagKeepsPending(flags: Six, masks: Six, ex: Ex)
    requires SomeUnmasked(flags, masks)
    ensures SomeUnmasked(FlagBits(flags, ex), masks)
  {
  }

  /** No way of raising flags leaves the summary bits wrong. */
  lemma ExceptionKeepsSummary(cw: Control, sw: Status, ex: Ex)
    requires SummaryTrue(cw, sw)
    ensures SummaryTrue(cw, Exception(cw, sw, ex))
  {
    var p := SomeUnmasked(FlagBits(sw.flags, ex), cw.masks);
    ExceptionShape(cw, sw, ex);
    if Pending(cw, sw) {
      FlagKeepsPending(sw.flags, cw.masks, ex);
      assert p;
    }
  }

  lemma ExceptionShape(cw: Control, sw: Status, ex: Ex)
    ensures var sw', p := Exception(cw, sw, ex), SomeUnmasked(FlagBits(sw.flags, ex), cw.masks);
      && sw'.flags == FlagBits(sw.flags, ex)
      && sw'.summary == (sw.summary || p)
      && sw'.backward == (sw.backward || p)
  {
  }

  lemma RaisingKeepsSummary(cw: Control, sw: Status, up: bool)
    requires SummaryTrue(cw, sw)
    ensures SummaryTrue(cw, SetPrecisionFlag(cw, sw, up)) && SummaryTrue(cw, SetPrecisionUpDown(cw, sw, up))
    ensures SummaryTrue(cw, DenormalOperand(cw, sw))
  {
    ExceptionKeepsSummary(cw, sw, Precision(up));
    ExceptionKeepsSummary(cw, sw, DenormalOp);
  }

  /** C1 is to say whether the last rounding went up. set_precision_flag makes it say
      so if and only if it went up, C1 was clear before, or the exception is not
      masked: the masked fast path never clears it. */
  lemma PrecisionC1Iff(cw: Control, sw: Status, up: bool)
    ensures SetPrecisionFlag(cw, sw, up).c1 == up <==> up || !sw.c1 || !cw.masks.precision
    ensures SetPrecisionFlag(cw, ClearC1(sw), up).c1 == up
  {
    hide Exception;
    RaisedC1(cw, sw, up);
    RaisedC1(cw, ClearC1(sw), up);
  }

  /** Through FPU_exception C1 is always right. */
  lemma RaisedC1(cw: Control, sw: Status, up: bool)
    ensures Exception(cw, sw, Precision(up)).c1 == up
  {
    hide SomeUnmasked;
  }

  /** A status word for which it does not: C1 set, and a rounding down. */
  lemma PrecisionLeavesC1()
    ensures SetPrecisionFlag(CW_INIT, CLEAR.(c1 := true), false).c1
  {
  }

  // ----- the packed tag word (fpu_tags.c) -----

  function Shift(i: nat): bv16
    requires i < 8
  {
    match i
    case 0 => 0
    case 1 => 2
    case 2 => 4
    case 3 => 6
    case 4 => 8
    case 5 => 10
    case 6 => 12
    case _ => 14
  }

  function TagBits(t: Tag): bv16 {
    match t
    case Valid => 0
    case Zero => 1
    case Special => 2
    case Empty => 3
    case Denormal => 4
    case Infinity => 5
    case NaN => 6
  }

  function BitsTag(b: bv16): Tag {
    if b == 0 then Valid else if b == 1 then Zero else if b == 2 then Special else Empty
  }

  /** The two bits at position a, and the word with x in their place. */
  function Field(w: bv16, a: bv16): bv16
    requires a <= 14
  {
    (w >> a) & 3
  }

  function WithField(w: bv16, a: bv16, x: bv16): bv16
    requires a <= 14
  {
    (w & !(3 << a)) | ((x & 3) << a)
  }

  lemma ShiftFits(i: nat)
    requires i < 8
    ensures Shift(i) <= 14 && Place(Shift(i))
  {
  }

  /** FPU_gettag and FPU_settag on a physical register number. */
  function GetTag(tw: bv16, i: nat): Tag
    requires i < 8
  {
    ShiftFits(i);
    BitsTag(Field(tw, Shift(i)))
  }

  function SetTag(tw: bv16, i: nat, t: Tag): bv16
    requires i < 8
  {
    ShiftFits(i);
    WithField(tw, Shift(i), TagBits(t))
  }

  predicate Place(a: bv16) { a <= 14 && a & 1 == 0 }

  lemma Apart(a: bv16, b: bv16, t: bv16)
    requires Place(a) && Place(b) && a != b
    ensures (3 << a) & (3 << b) == 0 as bv16 && ((t & 3) << a) & (3 << b) == 0
  {
  }

  lemma Undisturbed(w: bv16, m: bv16, x: bv16, n: bv16)
    requires m & n == 0 && x & n == 0
    ensures ((w & !m) | x) & n == w & n
  {
  }

  lemma FieldMasked(y: bv16, b: bv16)
    requires Place(b)
    ensures Field(y, b) == (y & (3 << b)) >> b
  {
  }

  lemma SameField(w: bv16, t: bv16, a: bv16)
    requires Place(a)
    ensures Field(WithField(w, a, t), a) == t & 3
  {
  }

  lemma OtherField(w: bv16, a: bv16, b: bv16, t: bv16)
    requires Place(a) && Place(b) && a != b
    ensures Field(WithField(w, a, t), b) == Field(w, b)
  {
    Apart(a, b, t);
    Undisturbed(w, 3 << a, (t & 3) << a, 3 << b);
    FieldMasked(w, b);
    FieldMasked(WithField(w, a, t), b);
  }

  lemma ShiftApart(i: nat, j: nat)
    requires i < 8 && j < 8 && i != j
    ensures Shift(i) != Shift(j)
  {
  }

  /** Setting one two-bit field sets that tag and no other. */
  lemma GetSetTag(tw: bv16, i: nat, j: nat, t: Tag)
    requires i < 8 && j < 8
    ensures GetTag(SetTag(tw, i, t), j) == if i == j then BitsTag(TagBits(t) & 3) else GetTag(tw, j)
  {
    ShiftFits(i);
    ShiftFits(j);
    if i == j {
      SameField(tw, TagBits(t), Shift(i));
    } else {
      ShiftApart(i, j);
      OtherField(tw, Shift(i), Shift(j), TagBits(t));
    }
  }

  /** FPU_pop ors both bits in. */
  function PopTag(tw: bv16, i: nat): (w: bv16)
    requires i < 8
    ensures w == SetTag(tw, i, Empty)
  {
    ShiftFits(i);
    OrField(tw, Shift(i));
    tw | (3 << Shift(i))
  }

  lemma OrField(w: bv16, a: bv16)
    requires a <= 14
    ensures w | (3 << a) == WithField(w, a, 3)
  {
  }

  lemma SameFields(v: bv16, w: bv16)
    requires Field(v, 0) == Field(w, 0) && Field(v, 2) == Field(w, 2)
    requires Field(v, 4) == Field(w, 4) && Field(v, 6) == Field(w, 6)
    requires Field(v, 8) == Field(w, 8) && Field(v, 10) == Field(w, 10)
    requires Field(v, 12) == Field(w, 12) && Field(v, 14) == Field(w, 14)
    ensures v == w
  {
  }

  // ----- snapshots -----

  type Stack = r: seq<Reg> | |r| == 8 witness seq(8, _ => CONST_Z)

  /** Control, status and tag words, the unreduced stack pointer, and the eight
      physical registers. */
  datatype State = State(cw: Control, sw: Status, tw: bv16, top: u8, st: Stack) {
    /** The physical number of st(i). */
    function Phys(i: int): (n: nat)
      ensures n < 8
    {
      (top + i) % 8
    }
    function St(i: int): Reg { st[Phys(i)] }
    function Tagi(i: int): Tag { GetTag(tw, Phys(i)) }
    function SetTagi(i: int, t: Tag): State { this.(tw := SetTag(tw, Phys(i), t)) }
    /** FPU_copy_to_regi */
    function Put(i: int, r: Reg, t: Tag): State {
      this.(tw := SetTag(tw, Phys(i), t), st := st[Phys(i) := r])
    }
    /** push() and its opposite, top++ */
    function Push(): State { this.(top := (top - 1) % 0x100) }
    function Unpush(): State { this.(top := (top + 1) % 0x100) }
    function Raise(ex: Ex): State { this.(sw := Exception(cw, sw, ex)) }
    /** FPU_pop */
    function Pop(): State { SetTagi(0, Empty).Unpush() }
  }

  /** finit_soft_fpu */
  const INIT := State(CW_INIT, CLEAR, 0xffff, 0,
                      [CONST_Z, CONST_Z, CONST_Z, CONST_Z, CONST_Z, CONST_Z, CONST_Z, CONST_Z])
}
