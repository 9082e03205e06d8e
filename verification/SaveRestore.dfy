/** fsave and frstor: an image taken in one state restores it in any other, and no
    run that follows can tell the difference. */
module SaveRestore {
  import opened Arith
  import opened Rounding
  import opened FpuRegs
  import opened FpuState
  import opened StoreReal
  import opened IntegerData
  import opened PackedDecimal
  import opened Compare
  import opened StackOps
  import opened StackRuns

  /** Equal but for the reserved bits of the control word and multiples of 8 in the
      stack pointer. */
  predicate Alike(s: State, t: State) {
    && s.st == t.st && s.tw == t.tw && s.sw == t.sw
    && s.top % 8 == t.top % 8
    && Reserved(s.cw) == Reserved(t.cw)
  }

  // ----- the instructions respect it -----

  lemma Mod8(top: u8, i: int)
    ensures (top + i) % 8 == (top % 8 + i) % 8
    ensures (top - 1) % 0x100 % 8 == (top + 7) % 8
    ensures (top + 1) % 0x100 % 8 == (top + 1) % 8
  {
    ModAddLeft(top, i, 8);
    ModEqual((top - 1) % 0x100, top + 7, -1 - 32 * ((top - 1) / 0x100), 8);
    ModEqual((top + 1) % 0x100, top + 1, 0 - 32 * ((top + 1) / 0x100), 8);
  }

  lemma AlikePhys(s: State, t: State, i: int)
    requires Alike(s, t)
    ensures s.Phys(i) == t.Phys(i)
  {
    Mod8(s.top, i);
    Mod8(t.top, i);
  }

  lemma AlikeMoves(s: State, t: State)
    requires Alike(s, t)
    ensures Alike(s.Push(), t.Push()) && Alike(s.Unpush(), t.Unpush()) && Alike(s.Pop(), t.Pop())
  {
    Mod8(s.top, 0);
    Mod8(t.top, 0);
    AlikePhys(s, t, 0);
    AlikePhys(s, t, 1);
    AlikePhys(s, t, 7);
  }

  lemma AlikePut(s: State, t: State, i: int, r: Reg, tag: Tag)
    requires Alike(s, t)
    ensures Alike(s.Put(i, r, tag), t.Put(i, r, tag)) && Alike(s.SetTagi(i, tag), t.SetTagi(i, tag))
  {
    AlikePhys(s, t, i);
  }

  lemma AlikePushPut(s: State, t: State, r: Reg, tag: Tag)
    requires Alike(s, t)
    ensures Alike(s.Push().Put(0, r, tag), t.Push().Put(0, r, tag))
  {
    AlikeMoves(s, t);
    AlikePut(s.Push(), t.Push(), 0, r, tag);
  }

  lemma AlikeFaults(s: State, t: State, i: int)
    requires Alike(s, t)
    ensures Alike(StackOverflow(s), StackOverflow(t)) && Alike(StackUnderflow(s, i), StackUnderflow(t, i))
    ensures Full(s) == Full(t)
  {
    AlikePushPut(s, t, CONST_QNaN, Special);
    AlikePut(s, t, i, CONST_QNaN, Special);
    AlikePhys(s, t, -1);
  }

  lemma AlikeFld(s: State, t: State, i: StNum)
    requires Alike(s, t)
    ensures Alike(Fld(s, i), Fld(t, i))
  {
    AlikeFaults(s, t, 0);
    AlikePhys(s, t, i);
    AlikePushPut(s, t, s.St(i), s.Tagi(i));
  }

  lemma AlikeFxch(s: State, t: State, i: StNum)
    requires Alike(s, t)
    ensures Alike(Fxch(s, i), Fxch(t, i))
  {
    var t0, ti, r0, ri := s.Tagi(0), s.Tagi(i), s.St(0), s.St(i);
    AlikePhys(s, t, 0);
    AlikePhys(s, t, i);
    if t0 == Empty && ti == Empty {
      AlikeFaults(s, t, 0);
      AlikeFaults(StackUnderflow(s, 0), StackUnderflow(t, 0), i);
    } else if t0 == Empty {
      AlikePut(s, t, 0, ri, ti);
      AlikeFaults(s, t, i);
      AlikeFaults(s.Put(0, ri, ti), t.Put(0, ri, ti), i);
    } else if ti == Empty {
      AlikePut(s, t, i, r0, t0);
      AlikeFaults(s, t, 0);
      AlikeFaults(s.Put(i, r0, t0), t.Put(i, r0, t0), 0);
    } else {
      AlikePut(NoC1(s), NoC1(t), 0, ri, ti);
      AlikePut(NoC1(s).Put(0, ri, ti), NoC1(t).Put(0, ri, ti), i, r0, t0);
    }
  }

  lemma AlikeSt0(s: State, t: State, r: Reg)
    requires Alike(s, t)
    ensures Alike(WithSt0(s, r), WithSt0(t, r))
  {
    AlikePhys(s, t, 0);
    AlikeFaults(s, t, 0);
  }

  lemma AlikeConst(s: State, t: State, k: Constant)
    requires Alike(s, t)
    ensures Alike(FldConst(s, k), FldConst(t, k))
  {
    AlikeFaults(s, t, 0);
    AlikePushPut(s, t, ConstantReg(k, s.cw.rc), if k == Nought then Zero else Valid);
  }

  lemma AlikeCompare(s: State, t: State, i: StNum, quiet: bool)
    requires Inv(s) && Inv(t) && Alike(s, t)
    ensures CompareSt(s, i, quiet) == CompareSt(t, i, quiet)
  {
    hide CompareRegs, Conditions, TagOf, GetTag, SomeUnmasked;
    AlikePhys(s, t, 0);
    AlikePhys(s, t, i);
    TagTrue(s, 0);
    TagTrue(s, i);
  }

  lemma AlikeFcom(s: State, t: State, i: StNum, quiet: bool, pops: nat)
    requires Inv(s) && Inv(t) && Alike(s, t) && pops <= 2
    ensures Alike(Fcom(s, i, quiet), Fcom(t, i, quiet))
    ensures pops >= 1 ==> Alike(Fcomp(s, i, quiet, pops), Fcomp(t, i, quiet, pops))
  {
    AlikeCompare(s, t, i, quiet);
    AlikeMoves(Fcom(s, i, quiet), Fcom(t, i, quiet));
    AlikeMoves(Fcom(s, i, quiet).Pop(), Fcom(t, i, quiet).Pop());
  }

  lemma AlikeLoad(s: State, t: State, m: Memory)
    requires Alike(s, t) && Fits(m)
    ensures Alike(Load(s, m), Load(t, m))
  {
    AlikeLoaded(s, t, Converted(m));
    AlikeReal(s, t, Converted(m), DenormalMemory(m));
  }

  lemma AlikeLoaded(s: State, t: State, r: Reg)
    requires Alike(s, t)
    ensures Alike(PushLoaded(s, r), PushLoaded(t, r))
  {
    AlikeFaults(s, t, 0);
    AlikePushPut(NoC1(s), NoC1(t), r, TagOf(r));
  }

  lemma AlikeReal(s: State, t: State, r: Reg, denormal: bool)
    requires Alike(s, t)
    ensures Alike(PushReal(s, r, denormal), PushReal(t, r, denormal))
  {
    var sw := LoadStatus(s, denormal);
    assert sw == LoadStatus(t, denormal);
    AlikeFaults(s, t, 0);
    AlikeNaN(s, t, r, sw);
    AlikePushPut(s.(sw := sw), t.(sw := sw), r, TagOf(r));
  }

  lemma AlikeNaN(s: State, t: State, r: Reg, sw: Status)
    requires Alike(s, t)
    ensures Alike(PushNaN(s, r, sw), PushNaN(t, r, sw))
  {
    var (r', sw', _) := RealNaN(s.cw, sw, r);
    AlikePushPut(s.(sw := sw'), t.(sw := sw'), r', Special);
  }

  // ----- stores depend on the masks and the rounding mode only -----

  predicate SameControl(c: Control, d: Control) { c.masks == d.masks && c.rc == d.rc }

  lemma SameStatus(c: Control, d: Control, sw: Status, ex: Ex, up: bool)
    requires SameControl(c, d)
    ensures Exception(c, sw, ex) == Exception(d, sw, ex)
    ensures SetPrecisionFlag(c, sw, up) == SetPrecisionFlag(d, sw, up)
    ensures SetPrecisionUpDown(c, sw, up) == SetPrecisionUpDown(d, sw, up)
  {
  }

  lemma SameTiny(c: Control, d: Control, sw: Status, loss: Loss, quiet: bool)
    requires SameControl(c, d)
    ensures TinyStatus(c, sw, loss, quiet) == TinyStatus(d, sw, loss, quiet)
  {
    SameStatus(c, d, sw, Underflow, true);
    SameLoss(c, d, sw, loss);
    SameLoss(c, d, Exception(c, sw, Underflow), loss);
  }

  lemma SameLoss(c: Control, d: Control, sw: Status, loss: Loss)
    requires SameControl(c, d)
    ensures LossException(c, sw, loss) == LossException(d, sw, loss)
  {
    SameStatus(c, d, sw, Invalid, true);
    SameStatus(c, d, sw, Precision(true), true);
    SameStatus(c, d, sw, Precision(false), true);
  }

  lemma SameOverflow(c: Control, d: Control, sw: Status)
    requires SameControl(c, d)
    ensures OverflowStatus(c, sw) == OverflowStatus(d, sw)
  {
    SameStatus(c, d, sw, Overflow, true);
    SameStatus(c, d, Exception(c, sw, Overflow), Overflow, true);
  }

  lemma SameDouble(c: Control, d: Control, sw: Status, r: Reg, tag: Tag)
    requires SameControl(c, d) && (tag == Valid ==> TagOf(r) == Valid)
    ensures StoreDoubleSpec(c, sw, r, tag) == StoreDoubleSpec(d, sw, r, tag)
  {
    var kind := Kind(r, tag);
    if kind == Valid || kind == Denormal {
      SameNumericDouble(c, d, sw, r, kind);
    }
  }

  lemma SameNumericDouble(c: Control, d: Control, sw: Status, r: Reg, kind: Tag)
    requires SameControl(c, d) && ((kind == Valid && TagOf(r) == Valid) || kind == Denormal)
    ensures NumericDouble(c, sw, r, kind) == NumericDouble(d, sw, r, kind)
  {
    if kind == Denormal {
      SameTinyDouble(c, d, sw, r, r, Denormal);
    } else if r.Exponent() < -1022 {
      SameTinyDouble(c, d, sw, r, r.(exp := r.exp + 1074), Valid);
    } else {
      SameOverflow(c, d, sw);
    }
  }

  lemma SameTinyDouble(c: Control, d: Control, sw: Status, r: Reg, t: Reg, tag: Tag)
    requires SameControl(c, d)
    ensures TinyDouble(c, sw, r, t, tag) == TinyDouble(d, sw, r, t, tag)
  {
    SameTiny(c, d, sw, RoundingCode(c.rc, t, tag), RoundedSig(c.rc, t, tag) == TWO52 && r.sigl % 0x800 != 0);
  }

  lemma SameSingle(c: Control, d: Control, sw: Status, r: Reg, tag: Tag)
    requires SameControl(c, d) && (tag == Valid ==> TagOf(r) == Valid)
    ensures StoreSingleSpec(c, sw, r, tag) == StoreSingleSpec(d, sw, r, tag)
  {
    var kind := Kind(r, tag);
    if kind == Valid || kind == Denormal {
      SameNumericSingle(c, d, sw, r, kind);
    }
  }

  lemma SameNumericSingle(c: Control, d: Control, sw: Status, r: Reg, kind: Tag)
    requires SameControl(c, d) && ((kind == Valid && TagOf(r) == Valid) || kind == Denormal)
    ensures NumericSingle(c, sw, r, kind) == NumericSingle(d, sw, r, kind)
  {
    if kind == Denormal {
      SameTinySingle(c, d, sw, r, r, Denormal);
    } else if r.Exponent() < -126 {
      SameTinySingle(c, d, sw, r, r.(exp := r.exp + 149), Valid);
    } else {
      SameOverflow(c, d, sw);
    }
  }

  lemma SameTinySingle(c: Control, d: Control, sw: Status, r: Reg, t: Reg, tag: Tag)
    requires SameControl(c, d)
    ensures TinySingle(c, sw, r, t, tag) == TinySingle(d, sw, r, t, tag)
  {
    var n := RoundedSig(c.rc, t, tag);
    SameTiny(c, d, sw, RoundingCode(c.rc, t, tag), n % TWO32 == TWO23 && (r.sigh % 0x100 != 0 || r.sigl != 0));
  }

  lemma AlikeConversion(s: State, t: State, f: Format)
    requires Inv(s) && Inv(t) && Alike(s, t)
    ensures Conversion(s, f) == Conversion(t, f)
  {
    AlikePhys(s, t, 0);
    TagTrue(s, 0);
    match f
    case Single => SameSingle(s.cw, t.cw, ClearC1(s.sw), s.St(0), s.Tagi(0));
    case Double64 => SameDouble(s.cw, t.cw, ClearC1(s.sw), s.St(0), s.Tagi(0));
    case Extended80 =>
    case Int(half) => SameInt(half, s.cw, t.cw, ClearC1(s.sw), s.St(0), s.Tagi(0));
    case Decimal80 => SameBcd(s.cw, t.cw, ClearC1(s.sw), s.St(0), s.Tagi(0));
  }

  lemma SameInt(half: nat, c: Control, d: Control, sw: Status, r: Reg, tag: Tag)
    requires SameControl(c, d)
    ensures StoreIntSpec(half, c, sw, r, tag) == StoreIntSpec(half, d, sw, r, tag)
  {
    SameStatus(c, d, sw, Invalid, RoundingCode(c.rc, r, Kind(r, tag)) == LostUp);
    SameStatus(c, d, sw, StackUnder, true);
  }

  lemma SameBcd(c: Control, d: Control, sw: Status, r: Reg, tag: Tag)
    requires SameControl(c, d)
    ensures StoreBcdSpec(c, sw, r, tag) == StoreBcdSpec(d, sw, r, tag)
  {
    SameStatus(c, d, sw, Invalid, RoundingCode(c.rc, r, Kind(r, tag)) == LostUp);
    SameStatus(c, d, sw, StackUnder, true);
  }

  lemma AlikeStore(s: State, t: State, f: Format, pop: bool)
    requires Inv(s) && Inv(t) && Alike(s, t)
    ensures Alike(Store(s, f, pop), Store(t, f, pop))
  {
    AlikeConversion(s, t, f);
    var sw := Conversion(s, f).1;
    AlikeMoves(s.(sw := sw), t.(sw := sw));
  }

  lemma AlikeFst(s: State, t: State, i: StNum, pop: bool)
    requires Inv(s) && Inv(t) && Alike(s, t)
    ensures Alike(Step(s, FST(i, pop)), Step(t, FST(i, pop)))
  {
    hide Exception;
    AlikePhys(s, t, 0);
    AlikePut(s, t, i, s.St(0), s.Tagi(0));
    AlikeMoves(Fst(s, i), Fst(t, i));
  }

  lemma AlikeFfree(s: State, t: State, i: StNum, pop: bool)
    requires Inv(s) && Inv(t) && Alike(s, t)
    ensures Alike(Step(s, FFREE(i, pop)), Step(t, FFREE(i, pop)))
  {
    hide Exception;
    AlikePut(s, t, i, s.St(0), Empty);
    AlikeMoves(s.SetTagi(i, Empty), t.SetTagi(i, Empty));
  }

  lemma AlikeStackStep(s: State, t: State, x: Instr)
    requires Inv(s) && Inv(t) && Alike(s, t) && Encodable(x) && StackOnly(x)
    ensures Alike(Step(s, x), Step(t, x))
  {
    hide Fxch, Exception, GetTag, SetTag, FldConst, Fcom, Fcomp;
    AlikePhys(s, t, 0);
    match x
    case FLD(i) => AlikeFld(s, t, i);
    case FXCH(i) => AlikeFxch(s, t, i);
    case FST(i, pop) => AlikeFst(s, t, i, pop);
    case FFREE(i, pop) => AlikeFfree(s, t, i, pop);
    case FINCSTP => AlikeMoves(NoC1(s), NoC1(t));
    case FDECSTP => AlikeMoves(NoC1(s), NoC1(t));
    case FCHS => AlikeSt0(s, t, FlipSign(s.St(0)));
    case FABS => AlikeSt0(s, t, ClearSign(s.St(0)));
    case FCONST(k) => AlikeConst(s, t, k);
    case FCOM(i, quiet, pops) => AlikeFcom(s, t, i, quiet, pops);
  }

  /** Two states that are alike write the same to memory and stay alike. */
  lemma AlikeStep(s: State, t: State, x: Instr)
    requires Inv(s) && Inv(t) && Alike(s, t) && Encodable(x)
    ensures Alike(Step(s, x), Step(t, x)) && Out(s, x) == Out(t, x)
  {
    if StackOnly(x) {
      AlikeStackStep(s, t, x);
    } else if x.LOAD? {
      AlikeLoad(s, t, x.m);
    } else if x.STORE? {
      AlikeStore(s, t, x.f, x.pop);
      AlikeConversion(s, t, x.f);
    }
  }

  lemma {:induction false} AlikeRun(s: State, t: State, p: seq<Instr>)
    requires Inv(s) && Inv(t) && Alike(s, t) && Program(p)
    ensures Alike(Run(s, p), Run(t, p)) && Trace(s, p) == Trace(t, p)
    decreases |p|
  {
    if p != [] {
      AlikeStep(s, t, p[0]);
      StepKeeps(s, p[0]);
      StepKeeps(t, p[0]);
      AlikeRun(Step(s, p[0]), Step(t, p[0]), p[1..]);
    }
  }

  // ----- saving and restoring -----

  /** The two pairs of split copies undo each other. */
  lemma RotateBack(st: Stack, top: StNum)
    ensures Unrotated(Rotated(st, top), top) == st
  {
    assert Rotated(st, top)[8 - top..] == st[..top];
    assert Rotated(st, top)[..8 - top] == st[top..];
  }

  /** Register j of the saved image is st(j). */
  lemma ImageInStackOrder(s: State, j: StNum)
    ensures Rotated(s.st, s.top % 8)[j] == s.St(j)
  {
    Mod8(s.top, j);
    RotatedAt(s.st, s.top % 8, j);
  }

  lemma RotatedAt(st: Stack, top: StNum, j: StNum)
    ensures Rotated(st, top)[j] == st[(top + j) % 8]
  {
    if top + j >= 8 {
      assert (top + j) % 8 == top + j - 8;
    } else {
      assert (top + j) % 8 == top + j;
    }
  }

  lemma LoadTagsGive(theirs: bv16, mine: bv16, st: Stack, i: nat)
    requires i < 8
    ensures GetTag(TagWord(LoadedTags(theirs, mine, st), 8), i) == LoadedTag(theirs, mine, st, i)
  {
    TagWordHolds(LoadedTags(theirs, mine, st), 8, i);
  }

  lemma OwnTagsGive(tw: bv16, st: Stack, i: nat)
    requires i < 8
    ensures GetTag(TagWord(OwnTags(tw, st), 8), i) == if GetTag(tw, i) != Empty then TagOf(st[i]) else Empty
  {
    TagWordHolds(OwnTags(tw, st), 8, i);
  }

  lemma TagsRestored(tw: bv16, st: Stack, mine: bv16, old_st: Stack)
    requires TagsTrue(tw, st)
    ensures TagWord(OwnTags(TagWord(LoadedTags(tw, mine, old_st), 8), st), 8) == tw
  {
    var loaded := TagWord(LoadedTags(tw, mine, old_st), 8);
    forall i: nat | i < 8 ensures GetTag(TagWord(OwnTags(loaded, st), 8), i) == GetTag(tw, i) {
      LoadTagsGive(tw, mine, old_st, i);
      OwnTagsGive(loaded, st, i);
      assert GetTag(tw, i) == Empty || GetTag(tw, i) == TagOf(st[i]);
    }
    SameTags(TagWord(OwnTags(loaded, st), 8), tw);
  }

  /** Whatever the state in between, frstor brings back the state that fsave saved:
      the registers, every tag, the top of stack, the whole status word, and the
      control word up to its reserved bits. */
  lemma RestoreSaved(s: State, t: State)
    requires Inv(s) && Inv(t)
    ensures var saved := Out(s, FSAVE);
      && saved.Saved?
      && Step(t, FRSTOR(saved.env, saved.image)) == s.(cw := Reserved(s.cw), top := s.top % 8)
  {
    hide Rotated, Unrotated, TagWord, LoadedTags, OwnTags, SomeUnmasked;
    var e, image := EnvOf(s), Rotated(s.st, s.top % 8);
    RotateBack(s.st, s.top % 8);
    TagsRestored(s.tw, s.st, t.tw, t.st);
    assert RecomputeSummary(e.cw, e.sw) == s.sw;
  }

  lemma RestoredGoesOn(s: State, t: State, p: seq<Instr>)
    requires Inv(s) && Inv(t) && Program(p)
    ensures var saved := Out(s, FSAVE);
      && saved.Saved?
      && Inv(Step(t, FRSTOR(saved.env, saved.image)))
      && var r := Step(t, FRSTOR(saved.env, saved.image));
      Trace(r, p) == Trace(s, p) && Alike(Run(r, p), Run(s, p))
  {
    RestoreSaved(s, t);
    StepKeeps(t, FRSTOR(EnvOf(s), Rotated(s.st, s.top % 8)));
    var r := s.(cw := Reserved(s.cw), top := s.top % 8);
    assert Alike(r, s) by { Mod8(s.top, 0); }
    AlikeRun(r, s, p);
  }

  /** A run may be interrupted by fsave, any other run, and frstor: from there it
      goes on as if nothing had happened. */
  lemma SavedRunGoesOn(s: State, other: seq<Instr>, p: seq<Instr>)
    requires Inv(s) && Program(other) && Program(p)
    ensures Inv(Step(s, FSAVE)) && Inv(Run(Step(s, FSAVE), other))
    ensures var saved, t := Out(s, FSAVE), Run(Step(s, FSAVE), other);
      && saved.Saved?
      && Inv(Step(t, FRSTOR(saved.env, saved.image)))
      && var r := Step(t, FRSTOR(saved.env, saved.image));
      Trace(r, p) == Trace(s, p) && Alike(Run(r, p), Run(s, p))
  {
    StepKeeps(s, FSAVE);
    RunKeeps(Step(s, FSAVE), other);
    RestoredGoesOn(s, Run(Step(s, FSAVE), other), p);
  }
}
