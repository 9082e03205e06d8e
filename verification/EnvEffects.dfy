/** What the instructions for the control word and the environment leave: the fields of
    both words, and every register with its tag. */
module EnvEffects {
  import opened Rounding
  import opened FpuRegs
  import opened FpuState
  import opened StackOps
  import opened StackRuns
  import opened SaveRestore
  import opened Effects

  /** Rounding, precision and infinity control, and the masks. */
  predicate SameSettings(c: Control, d: Control) {
    c.rc == d.rc && c.pc == d.pc && c.bit12 == d.bit12 && c.masks == d.masks
  }

  /** The status words agree but for the summary bits. */
  predicate SameReport(sw: Status, sw': Status) {
    sw'.flags == sw.flags && sw'.stackFault == sw.stackFault && sw'.c1 == sw.c1 && SameCodes(sw, sw')
  }

  /** The summary bits say whether one of the flags is not masked. */
  predicate Summarised(sw: Status, masks: Six) {
    var f := sw.flags;
    sw.summary == sw.backward ==
      ((f.invalid && !masks.invalid) || (f.denormOp && !masks.denormOp) || (f.zeroDiv && !masks.zeroDiv)
       || (f.overflow && !masks.overflow) || (f.underflow && !masks.underflow) || (f.precision && !masks.precision))
  }

  /** fldcw takes over the operand and lets the summary bits follow its masks. */
  lemma FldcwLoads(s: State, cw: Control)
    requires Inv(s)
    ensures var s' := Step(s, FLDCW(cw));
      && SameSettings(s'.cw, cw) && s'.cw.bit6 && s'.cw.bit7 == cw.bit7 && s'.cw.high == cw.high
      && SameStack(s, s') && SameReport(s.sw, s'.sw) && Summarised(s'.sw, cw.masks)
  {
  }

  /** fclex clears the exceptions, the stack fault and the summary bits. */
  lemma FclexClears(s: State)
    requires Inv(s)
    ensures var s', f := Step(s, FCLEX), Step(s, FCLEX).sw.flags;
      && SameStack(s, s') && s'.cw == s.cw && SameCodes(s.sw, s'.sw) && s'.sw.c1 == s.sw.c1
      && !f.invalid && !f.denormOp && !f.zeroDiv && !f.overflow && !f.underflow && !f.precision
      && !s'.sw.stackFault && !s'.sw.summary && !s'.sw.backward
  {
  }

  /** What fstenv and fsave write: the settings, the whole status word, the top of the
      stack and the tags. */
  ghost predicate Describes(e: Env, s: State) {
    SameSettings(e.cw, s.cw) && e.sw == s.sw && e.top == s.top % 8 && e.tw == s.tw
  }

  /** fstenv writes the environment and then masks every exception, so that nothing is
      pending; the flags stay. */
  lemma FstenvMasks(s: State)
    requires Inv(s)
    ensures Out(s, FSTENV).Environment? && Describes(Out(s, FSTENV).env, s)
    ensures var s', m := Step(s, FSTENV), Step(s, FSTENV).cw.masks;
      && s'.cw.rc == s.cw.rc && s'.cw.pc == s.cw.pc && s'.cw.bit12 == s.cw.bit12
      && m.invalid && m.denormOp && m.zeroDiv && m.overflow && m.underflow && m.precision
      && SameStack(s, s') && SameReport(s.sw, s'.sw) && !s'.sw.summary && !s'.sw.backward
  {
  }

  /** fldenv takes over both words and the top of the stack. No register changes; those
      that the environment calls empty are, and the others get the tag of their
      contents, whatever tag it gives them. */
  lemma FldenvLoads(s: State, e: Env)
    requires Inv(s)
    ensures var s' := Step(s, FLDENV(e));
      && SameSettings(s'.cw, e.cw) && SameReport(e.sw, s'.sw) && Summarised(s'.sw, e.cw.masks)
      && s'.top == e.top && s'.st == s.st
      && forall i: nat :: i < 8 ==> GetTag(s'.tw, i) == if GetTag(e.tw, i) == Empty then Empty else TagOf(s.st[i])
  {
    hide GetTag, TagWord, LoadedTags, TagOf;
    forall i: nat | i < 8
      ensures GetTag(Step(s, FLDENV(e)).tw, i) == if GetTag(e.tw, i) == Empty then Empty else TagOf(s.st[i])
    {
      LoadTagsGive(e.tw, s.tw, s.st, i);
      assert GetTag(s.tw, i) == Empty || GetTag(s.tw, i) == TagOf(s.st[i]);
    }
  }

  /** frstor does the same to the words, and loads the registers in stack order, each
      with the tag of its new contents unless the environment calls it empty. */
  lemma FrstorLoads(s: State, e: Env, image: Stack)
    requires Inv(s)
    ensures var s' := Step(s, FRSTOR(e, image));
      && SameSettings(s'.cw, e.cw) && SameReport(e.sw, s'.sw) && Summarised(s'.sw, e.cw.masks)
      && s'.top == e.top
      && forall j: nat :: j < 8 ==>
        && s'.St(j) == image[j]
        && s'.Tagi(j) == if GetTag(e.tw, (e.top + j) % 8) == Empty then Empty else TagOf(image[j])
  {
    hide GetTag, TagWord, LoadedTags, OwnTags, TagOf, Rotated, Unrotated;
    var s' := Step(s, FRSTOR(e, image));
    forall j: nat | j < 8
      ensures s'.St(j) == image[j]
      ensures s'.Tagi(j) == if GetTag(e.tw, (e.top + j) % 8) == Empty then Empty else TagOf(image[j])
    {
      UnrotatedAt(image, e.top, j);
      var i := (e.top + j) % 8;
      OwnTagsGive(TagWord(LoadedTags(e.tw, s.tw, s.st), 8), Unrotated(image, e.top), i);
      LoadTagsGive(e.tw, s.tw, s.st, i);
      assert GetTag(s.tw, i) == Empty || GetTag(s.tw, i) == TagOf(s.st[i]);
      NeverEmpty(s.st[i]);
    }
  }

  lemma NeverEmpty(r: Reg)
    ensures TagOf(r) != Empty
  {
  }

  lemma UnrotatedAt(image: Stack, top: StNum, j: nat)
    requires j < 8
    ensures Unrotated(image, top)[(top + j) % 8] == image[j]
  {
    if top + j >= 8 {
      assert (top + j) % 8 == top + j - 8;
    } else {
      assert (top + j) % 8 == top + j;
    }
  }

  /** finit, and fsave after writing: round to nearest, full precision, everything
      masked, nothing flagged, every register empty. */
  lemma Reset(s: State, x: Instr)
    requires Inv(s) && (x == FSAVE || x == FINIT)
    ensures var s', m, f := Step(s, x), Step(s, x).cw.masks, Step(s, x).sw.flags;
      && s'.cw.rc == RND && s'.cw.pc == 3 && s'.top == 0
      && m.invalid && m.denormOp && m.zeroDiv && m.overflow && m.underflow && m.precision
      && !f.invalid && !f.denormOp && !f.zeroDiv && !f.overflow && !f.underflow && !f.precision
      && !s'.sw.stackFault && !s'.sw.summary && !s'.sw.backward
      && !s'.sw.c0 && !s'.sw.c1 && !s'.sw.c2 && !s'.sw.c3
      && forall i: nat :: i < 8 ==> GetTag(s'.tw, i) == Empty
  {
    AllEmpty();
  }

  lemma AllEmpty()
    ensures forall i: nat :: i < 8 ==> GetTag(0xffff, i) == Empty
  {
  }

  /** fsave also writes the registers, st(0) first. */
  lemma FsaveWrites(s: State)
    requires Inv(s)
    ensures var out := Out(s, FSAVE);
      && out.Saved? && Describes(out.env, s)
      && forall j: int :: 0 <= j < 8 ==> out.image[j] == s.St(j)
  {
    hide Rotated;
    forall j: int | 0 <= j < 8 ensures Rotated(s.st, s.top % 8)[j] == s.St(j) { ImageInStackOrder(s, j); }
  }
}
