/** What the stack instructions do, register by register as a program sees them: st(0)
    to st(7), their tags, the top of the stack and the single bits of the status word. */
module Effects {
  import opened Arith
  import opened Rounding
  import opened FpuRegs
  import opened FpuState
  import opened StoreReal
  import opened LoadReal
  import opened IntegerData
  import opened PackedDecimal
  import opened Compare
  import opened StackOps
  import opened StackRuns
  import opened SaveRestore
  import opened StackMeaning

  // ----- shapes -----

  /** r with tag t is the new st(0), and every st(j) becomes st(j + 1). */
  ghost predicate Pushes(s: State, s': State, r: Reg, t: Tag) {
    && s'.top == (s.top + 0xff) % 0x100
    && s'.St(0) == r && s'.Tagi(0) == t
    && forall j: int :: 1 <= j < 8 ==> s'.St(j) == s.St(j - 1) && s'.Tagi(j) == s.Tagi(j - 1)
  }

  /** n registers leave the stack: they keep their contents and become empty, and every
      st(j + n) becomes st(j). */
  ghost predicate Pops(s: State, s': State, n: nat) {
    && s'.top == (s.top + n) % 0x100
    && forall j: int :: 0 <= j < 8 ==>
      s'.St(j) == s.St(j + n) && s'.Tagi(j) == if j + n < 8 then s.Tagi(j + n) else Empty
  }

  /** st(i) becomes r with tag t, and no other register changes. */
  ghost predicate Writes(s: State, s': State, i: int, r: Reg, t: Tag) {
    && s'.top == s.top
    && forall j: int :: 0 <= j < 8 ==>
      s'.St(j) == (if j == i then r else s.St(j)) && s'.Tagi(j) == if j == i then t else s.Tagi(j)
  }

  ghost predicate SameStack(s: State, s': State) { s'.top == s.top && s'.st == s.st && s'.tw == s.tw }

  /** The status words agree but for the exception flags, the stack fault, C1 and the
      summary bits. */
  predicate SameCodes(sw: Status, sw': Status) { sw'.c0 == sw.c0 && sw'.c2 == sw.c2 && sw'.c3 == sw.c3 }

  /** The invalid operation and the stack fault are flagged, with C1 telling overflow
      from underflow, and no other exception is. */
  ghost predicate StackFault(s: State, s': State, over: bool) {
    && s'.cw == s.cw && SameCodes(s.sw, s'.sw)
    && s'.sw.flags == s.sw.flags.(invalid := true) && s'.sw.stackFault && s'.sw.c1 == over
  }

  // ----- exceptions -----

  /** Each exception sets its own flag and no other; the two stack faults are invalid
      operations that C1 tells apart, and after a loss of precision C1 says which way. */
  lemma ExceptionSets(cw: Control, sw: Status, ex: Ex)
    ensures var x := Exception(cw, sw, ex);
      && SameCodes(sw, x) && x.flags == Also(sw.flags, ex)
      && x.stackFault == (sw.stackFault || ex == StackOver || ex == StackUnder)
      && (ex == StackOver || ex == Precision(true) ==> x.c1)
      && (ex == StackUnder || ex == Precision(false) ==> !x.c1)
      && (ex in {Overflow, Underflow, DenormalOp, Invalid} ==> x.c1 == sw.c1)
  {
    hide Flag, Pending;
    FlagSets(sw, ex);
    ExceptionFields(cw, sw, ex);
  }

  /** The flags with that of the exception. */
  function Also(f: Six, ex: Ex): Six {
    Six(f.invalid || ex == Invalid || ex == StackOver || ex == StackUnder, f.denormOp || ex == DenormalOp,
        f.zeroDiv, f.overflow || ex == Overflow, f.underflow || ex == Underflow, f.precision || ex.Precision?)
  }

  lemma FlagSets(sw: Status, ex: Ex)
    ensures var x := Flag(sw, ex);
      && SameCodes(sw, x) && x.flags == Also(sw.flags, ex)
      && x.stackFault == (sw.stackFault || ex == StackOver || ex == StackUnder)
      && x.c1 == (sw.c1 || ex == StackOver || ex == Precision(true))
  {
  }

  lemma ExceptionFields(cw: Control, sw: Status, ex: Ex)
    ensures var x, y := Exception(cw, sw, ex), Flag(sw, ex);
      && SameCodes(y, x) && x.flags == y.flags && x.stackFault == y.stackFault
      && x.c1 == (y.c1 && ex != StackUnder && ex != Precision(false))
  {
    hide Flag, Pending;
  }

  lemma DenormalSets(cw: Control, sw: Status)
    ensures var x := DenormalOperand(cw, sw);
      && SameCodes(sw, x) && x.stackFault == sw.stackFault && x.c1 == sw.c1
      && x.flags == sw.flags.(denormOp := true)
  {
    hide Exception;
    ExceptionSets(cw, sw, DenormalOp);
    assert Also(sw.flags, DenormalOp) == sw.flags.(denormOp := true);
  }

  lemma PrecisionSets(cw: Control, sw: Status, up: bool)
    ensures var x := SetPrecisionUpDown(cw, sw, up);
      && SameCodes(sw, x) && x.stackFault == sw.stackFault && x.c1 == up
      && x.flags == sw.flags.(precision := true)
  {
    hide Exception;
    ExceptionSets(cw, sw, Precision(up));
    assert Also(sw.flags, Precision(up)) == sw.flags.(precision := true);
  }

  lemma PrecisionFlagSets(cw: Control, sw: Status, up: bool)
    ensures var x := SetPrecisionFlag(cw, sw, up);
      && SameCodes(sw, x) && x.stackFault == sw.stackFault
      && x.flags == sw.flags.(precision := true)
  {
    hide Exception;
    ExceptionSets(cw, sw, Precision(up));
    assert Also(sw.flags, Precision(up)) == sw.flags.(precision := true);
  }

  // ----- registers by their stack numbers -----

  lemma PhysApart(s: State, i: int, j: int)
    requires 0 <= i < 8 && 0 <= j < 8
    ensures s.Phys(i) == s.Phys(j) <==> i == j
  {
    hide GetTag;
    DistinctMod(s.top, i, j);
  }

  lemma DistinctMod(top: int, i: int, j: int)
    requires 0 <= i < 8 && 0 <= j < 8
    ensures (top + i) % 8 == (top + j) % 8 <==> i == j
  {
  }

  lemma PushedPhys(s: State, j: int)
    ensures s.Push().Phys(j) == s.Phys(j - 1)
    ensures s.Push().top == (s.top + 0xff) % 0x100
  {
    Mod8(s.Push().top, j);
    ModAddLeft(s.top + 7, j, 8);
    Mod8(s.top, j - 1);
    ModEqual(s.top + 7 + j, s.top + j - 1, 1, 8);
  }

  lemma PoppedPhys(s: State, j: int)
    ensures s.Unpush().Phys(j) == s.Phys(j + 1)
  {
    TopUp(s.top, j);
  }

  lemma TopUp(top: int, j: int)
    ensures ((top + 1) % 0x100 + j) % 8 == (top + (j + 1)) % 8
  {
    ModEqual((top + 1) % 0x100 + j, top + (j + 1), 0 - 32 * ((top + 1) / 0x100), 8);
  }

  lemma PutWrites(s: State, i: int, r: Reg, t: Tag)
    requires 0 <= i < 8 && StackTag(t)
    ensures Writes(s, s.Put(i, r, t), i, r, t)
  {
    hide GetTag, SetTag;
    forall j: int | 0 <= j < 8
      ensures s.Put(i, r, t).St(j) == (if j == i then r else s.St(j))
      ensures s.Put(i, r, t).Tagi(j) == if j == i then t else s.Tagi(j)
    {
      PutReads(s, i, r, t, j);
      PhysApart(s, i, j);
    }
  }

  lemma PushPuts(s: State, r: Reg, t: Tag)
    requires StackTag(t)
    ensures Pushes(s, s.Push().Put(0, r, t), r, t)
  {
    hide GetTag, SetTag;
    PutWrites(s.Push(), 0, r, t);
    PushedPhys(s, 0);
    forall j: int | 1 <= j < 8 ensures s.Push().St(j) == s.St(j - 1) && s.Push().Tagi(j) == s.Tagi(j - 1) {
      PushedPhys(s, j);
    }
  }

  /** A pop marks st(0) as empty, which is then st(7), and raises the top by one. */
  lemma PopPops(s: State)
    ensures Pops(s, s.Pop(), 1)
  {
    hide GetTag, SetTag;
    var s1 := s.SetTagi(0, Empty);
    SetTagiIsPut(s, 0);
    PutWrites(s, 0, s.St(0), Empty);
    forall j: int | 0 <= j < 8
      ensures s.Pop().St(j) == s.St(j + 1) && s.Pop().Tagi(j) == if j + 1 < 8 then s.Tagi(j + 1) else Empty
    {
      PoppedPhys(s1, j);
      if j == 7 { Wraps(s1, 7); Wraps(s, 7); }
    }
  }

  lemma SetTagiIsPut(s: State, i: int)
    ensures s.SetTagi(i, Empty) == s.Put(i, s.St(i), Empty)
  {
    assert s.st[s.Phys(i) := s.st[s.Phys(i)]] == s.st;
  }

  lemma Wraps(s: State, j: int)
    ensures s.Phys(j + 1) == s.Phys(j - 7)
  {
    ModEqual(s.top + j + 1, s.top + j - 7, 1, 8);
  }

  lemma PopTwice(s: State)
    ensures Pops(s, s.Pop().Pop(), 2)
  {
    hide GetTag, SetTag;
    var s1 := s.Pop();
    PopPops(s);
    PopPops(s1);
    TwoUp(s.top);
    forall j: int | 0 <= j < 8
      ensures s1.Pop().St(j) == s.St(j + 2) && s1.Pop().Tagi(j) == if j + 2 < 8 then s.Tagi(j + 2) else Empty
    {
      if j == 7 {
        Wraps(s1, 7);
        Wraps(s, 8);
        assert s1.St(0) == s.St(1);
      }
    }
  }

  lemma TwoUp(top: int)
    ensures ((top + 1) % 0x100 + 1) % 0x100 == (top + 2) % 0x100
  {
    ModAddLeft(top + 1, 1, 0x100);
  }

  // ----- stack faults -----

  /** The indefinite NaN. */
  const INDEFINITE_NAN := Reg(0, 0xc000_0000, 0xffff)

  lemma RaisedFault(s: State, s1: State, over: bool)
    requires s1.cw == s.cw && s1.sw == s.sw
    ensures var s' := s1.Raise(if over then StackOver else StackUnder); StackFault(s, s', over) && SameStack(s1, s')
  {
    hide Exception;
    ExceptionSets(s.cw, s.sw, if over then StackOver else StackUnder);
  }

  lemma StillPushes(s: State, s1: State, s': State, r: Reg, t: Tag)
    requires Pushes(s, s1, r, t) && SameStack(s1, s')
    ensures Pushes(s, s', r, t)
  {
    hide GetTag;
    forall j: int ensures s'.St(j) == s1.St(j) && s'.Tagi(j) == s1.Tagi(j) {}
  }

  lemma StillWrites(s: State, s1: State, s': State, i: int, r: Reg, t: Tag)
    requires Writes(s, s1, i, r, t) && SameStack(s1, s')
    ensures Writes(s, s', i, r, t)
  {
    hide GetTag;
    forall j: int ensures s'.St(j) == s1.St(j) && s'.Tagi(j) == s1.Tagi(j) {}
  }

  /** A stack overflow pushes the indefinite NaN if it is masked and leaves the stack
      alone if not. */
  lemma OverflowEffect(s: State)
    ensures var s' := StackOverflow(s);
      && StackFault(s, s', true)
      && if s.cw.masks.invalid then Pushes(s, s', INDEFINITE_NAN, Special) else SameStack(s, s')
  {
    hide GetTag, SetTag, Exception, Pushes;
    var s1 := if s.cw.masks.invalid then s.Push().Put(0, INDEFINITE_NAN, Special) else s;
    PushPuts(s, INDEFINITE_NAN, Special);
    RaisedFault(s, s1, true);
    if s.cw.masks.invalid { StillPushes(s, s1, StackOverflow(s), INDEFINITE_NAN, Special); }
  }

  /** A stack underflow puts it in st(i). */
  lemma UnderflowEffect(s: State, i: StNum)
    ensures var s' := StackUnderflow(s, i);
      && StackFault(s, s', false)
      && if s.cw.masks.invalid then Writes(s, s', i, INDEFINITE_NAN, Special) else SameStack(s, s')
  {
    hide GetTag, SetTag, Exception, Writes;
    var s1 := if s.cw.masks.invalid then s.Put(i, INDEFINITE_NAN, Special) else s;
    PutWrites(s, i, INDEFINITE_NAN, Special);
    RaisedFault(s, s1, false);
    if s.cw.masks.invalid { StillWrites(s, s1, StackUnderflow(s, i), i, INDEFINITE_NAN, Special); }
  }

  // ----- moves -----

  /** fld st(i) pushes a copy of st(i). */
  lemma FldCopies(s: State, i: StNum)
    requires Inv(s) && s.Tagi(-1) == Empty && s.Tagi(i) != Empty
    ensures var s' := Step(s, FLD(i)); Pushes(s, s', s.St(i), s.Tagi(i)) && s'.cw == s.cw && s'.sw == s.sw
  {
    hide GetTag, SetTag;
    TagiIsStackTag(s, i);
    PushPuts(s, s.St(i), s.Tagi(i));
  }

  /** Without room it is an overflow, which goes first; without a source an underflow
      of st(0), which is where the indefinite NaN goes. */
  lemma FldFaults(s: State, i: StNum)
    requires Inv(s)
    ensures var s' := Step(s, FLD(i));
      && (s.Tagi(-1) != Empty ==>
        && StackFault(s, s', true)
        && if s.cw.masks.invalid then Pushes(s, s', INDEFINITE_NAN, Special) else SameStack(s, s'))
      && (s.Tagi(-1) == Empty && s.Tagi(i) == Empty ==>
        && StackFault(s, s', false)
        && if s.cw.masks.invalid then Writes(s, s', 0, INDEFINITE_NAN, Special) else SameStack(s, s'))
  {
    hide GetTag, SetTag, Exception;
    OverflowEffect(s);
    UnderflowEffect(s, 0);
    RaisedFault(s, s, false);
  }

  /** fst st(i) copies st(0) to st(i); fstp st(i) pops after that. */
  lemma FstCopies(s: State, i: StNum)
    requires Inv(s)
    ensures var s1, s2 := Step(s, FST(i, false)), Step(s, FST(i, true));
      && Writes(s, s1, i, s.St(0), s.Tagi(0)) && s1.cw == s.cw && s1.sw == s.sw
      && Pops(s1, s2, 1) && s2.cw == s.cw && s2.sw == s.sw
  {
    hide GetTag, SetTag;
    TagiIsStackTag(s, 0);
    PutWrites(s, i, s.St(0), s.Tagi(0));
    PopPops(Step(s, FST(i, false)));
  }

  /** ffree st(i) empties st(i) and keeps its contents; ffreep pops after that. */
  lemma FfreeEmpties(s: State, i: StNum)
    requires Inv(s)
    ensures var s1, s2 := Step(s, FFREE(i, false)), Step(s, FFREE(i, true));
      && Writes(s, s1, i, s.St(i), Empty) && s1.cw == s.cw && s1.sw == s.sw
      && Pops(s1, s2, 1) && s2.cw == s.cw && s2.sw == s.sw
  {
    hide GetTag, SetTag;
    SetTagiIsPut(s, i);
    PutWrites(s, i, s.St(i), Empty);
    PopPops(Step(s, FFREE(i, false)));
  }

  /** fincstp and fdecstp renumber the registers and clear C1; no tag changes. */
  lemma TopMoves(s: State, j: int)
    requires Inv(s)
    ensures var up, down := Step(s, FINCSTP), Step(s, FDECSTP);
      && up.St(j) == s.St(j + 1) && up.Tagi(j) == s.Tagi(j + 1) && up.st == s.st && up.tw == s.tw
      && down.St(j) == s.St(j - 1) && down.Tagi(j) == s.Tagi(j - 1) && down.st == s.st && down.tw == s.tw
      && up.top == (s.top + 1) % 0x100 && down.top == (s.top + 0xff) % 0x100
      && up.cw == down.cw == s.cw && up.sw == down.sw == s.sw.(c1 := false)
  {
    hide GetTag;
    PoppedPhys(s, j);
    PushedPhys(s, j);
  }

  /** fxch with one empty register copies the other one into it, if the underflow is
      masked, and that other one becomes the indefinite NaN. */
  lemma FxchFaults(s: State, i: StNum)
    requires Inv(s) && (s.Tagi(0) == Empty) != (s.Tagi(i) == Empty)
    ensures var s', empty, other := Step(s, FXCH(i)), if s.Tagi(0) == Empty then 0 else i,
                                    if s.Tagi(0) == Empty then i else 0;
      && StackFault(s, s', false) && s'.top == s.top
      && if s.cw.masks.invalid then
          forall j: int :: 0 <= j < 8 ==>
            && s'.St(j) == (if j == other then INDEFINITE_NAN else if j == empty then s.St(other) else s.St(j))
            && s'.Tagi(j) == if j == other then Special else if j == empty then s.Tagi(other) else s.Tagi(j)
        else SameStack(s, s')
  {
    hide GetTag, SetTag, Exception, StackUnderflow;
    var empty, other := if s.Tagi(0) == Empty then 0 else i, if s.Tagi(0) == Empty then i else 0;
    TagiIsStackTag(s, other);
    PutWrites(s, empty, s.St(other), s.Tagi(other));
    UnderflowEffect(s.Put(empty, s.St(other), s.Tagi(other)), other);
    UnderflowEffect(s, other);
  }

  /** With both empty, both become the indefinite NaN. */
  lemma FxchBothEmpty(s: State, i: StNum)
    requires Inv(s) && s.Tagi(0) == Empty && s.Tagi(i) == Empty
    ensures var s' := Step(s, FXCH(i));
      && StackFault(s, s', false) && s'.top == s.top
      && if s.cw.masks.invalid then
          forall j: int :: 0 <= j < 8 ==>
            && s'.St(j) == (if j == i || j == 0 then INDEFINITE_NAN else s.St(j))
            && s'.Tagi(j) == if j == i || j == 0 then Special else s.Tagi(j)
        else SameStack(s, s')
  {
    hide GetTag, SetTag, Exception, StackUnderflow;
    UnderflowEffect(s, 0);
    UnderflowEffect(StackUnderflow(s, 0), i);
  }

  /** fxch that does not fault touches st(0), st(i) and C1 only. */
  lemma FxchElse(s: State, i: StNum)
    requires Inv(s) && s.Tagi(0) != Empty && s.Tagi(i) != Empty
    ensures var s' := Step(s, FXCH(i));
      && s'.top == s.top && s'.cw == s.cw && s'.sw == s.sw.(c1 := false)
      && forall j: int :: 0 <= j < 8 ==>
        && s'.St(j) == s.St(if j == 0 then i else if j == i then 0 else j)
        && s'.Tagi(j) == s.Tagi(if j == 0 then i else if j == i then 0 else j)
  {
    hide GetTag, SetTag;
    var s0, s1 := NoC1(s), NoC1(s).Put(0, s.St(i), s.Tagi(i));
    TagiIsStackTag(s, 0);
    TagiIsStackTag(s, i);
    PutWrites(s0, 0, s.St(i), s.Tagi(i));
    PutWrites(s1, i, s.St(0), s.Tagi(0));
  }

  // ----- signs and constants -----

  /** Only the sign bit of st(0) and C1 change: fchs flips the sign, fabs clears it. */
  lemma SignEffect(s: State, change: bool)
    requires Inv(s) && s.Tagi(0) != Empty
    ensures var s' := Step(s, if change then FCHS else FABS);
      && Writes(s, s', 0, s'.St(0), s.Tagi(0)) && s'.cw == s.cw && s'.sw == s.sw.(c1 := false)
      && s'.St(0).Sig() == s.St(0).Sig() && s'.St(0).Field() == s.St(0).Field()
      && s'.St(0).Neg() == (change && !s.St(0).Neg())
  {
    hide GetTag, SetTag;
    var r := s.St(0);
    SignBit(r.exp);
    var x := if change then FlipSign(r) else ClearSign(r);
    forall j: int | 0 <= j < 8 ensures NoC1(s).(st := s.st[s.Phys(0) := x]).St(j) == if j == 0 then x else s.St(j) {
      PhysApart(s, 0, j);
    }
  }

  lemma SignFaults(s: State, change: bool)
    requires Inv(s) && s.Tagi(0) == Empty
    ensures var s' := Step(s, if change then FCHS else FABS);
      && StackFault(s, s', false)
      && if s.cw.masks.invalid then Writes(s, s', 0, INDEFINITE_NAN, Special) else SameStack(s, s')
  {
    hide GetTag, SetTag, Exception, StackUnderflow;
    UnderflowEffect(s, 0);
  }

  /** A constant is pushed with its own tag, C1 is cleared, and without room there is
      an overflow instead. */
  lemma ConstantPushed(s: State, k: Constant)
    requires Inv(s)
    ensures var s', r := Step(s, FCONST(k)), ConstantReg(k, s.cw.rc);
      if s.Tagi(-1) == Empty then
        Pushes(s, s', r, TagOf(r)) && s'.cw == s.cw && s'.sw == s.sw.(c1 := false)
      else
        && StackFault(s, s', true)
        && if s.cw.masks.invalid then Pushes(s, s', INDEFINITE_NAN, Special) else SameStack(s, s')
  {
    hide GetTag, SetTag, Exception, StackOverflow, ConstantReg, TagOf, Pushes;
    var r := ConstantReg(k, s.cw.rc);
    OverflowEffect(s);
    ConstantTag(k, s.cw.rc);
    PushPuts(s, r, TagOf(r));
    if !Full(s) { StillPushes(s, s.Push().Put(0, r, TagOf(r)), FldConst(s, k), r, TagOf(r)); }
  }
}
