/** extras/x87-emu/load_store.c and the environment transfers of reg_ld_str.c, as the
    emulator runs them, step by step on the one soft FPU. */
module LoadStoreCode {
  import opened Rounding
  import opened FpuRegs
  import opened FpuState
  import opened FpuMachine
  import opened StoreReal
  import opened StoreRealCode
  import opened LoadReal
  import opened IntegerData
  import opened PackedDecimal
  import opened Compare
  import opened StackOps
  import opened StackRuns
  import opened StackCode

  // ----- loads -----

  /** The _PUSH_ case of FPU_load_store, and clear_C1. */
  method MakeRoom(f: Fpu) returns (ok: bool)
    requires f.Valid()
    modifies f`partialStatus, f`tagWord, f`top, f.regs
    ensures ok == !Full(old(f.S()))
    ensures f.S() == if ok then NoC1(old(f.S())).Push() else StackOverflow(old(f.S()))
  {
    if f.GetTagi(-1) != Empty {
      FpuStackOverflow(f);
      return false;
    }
    f.top := (f.top - 1) % 0x100;
    f.partialStatus := ClearC1(f.partialStatus);
    return true;
  }

  /** real_1op_NaN */
  method RealOneOpNaN(f: Fpu, a: FpuReg) returns (ok: bool)
    requires f.Valid()
    modifies f`partialStatus, a
    ensures (a.Val(), f.partialStatus, ok) == RealNaN(f.controlWord, old(f.partialStatus), old(a.Val()))
  {
    var isNaN := a.Val().Exponent() == EXP_OVER && a.sigh >= BIT31;
    var signalling := isNaN && a.sigh < 0xc000_0000;
    if !signalling {
      if !isNaN {
        if f.controlWord.masks.invalid {
          a.Set(CONST_QNaN);
        }
        f.Exception(Invalid);
        return f.controlWord.masks.invalid;
      }
      return true;
    }
    if f.controlWord.masks.invalid {
      a.sigh := a.sigh + 0x4000_0000;
    }
    f.Exception(Invalid);
    return f.controlWord.masks.invalid;
  }

  lemma PushTwice(top: u8)
    ensures ((top - 1) % 0x100 + 1) % 0x100 == top
  {
  }

  /** The common end of fld m32real and fld m64real: a NaN operand whose exception is
      not masked takes back the push. */
  method FinishReal(f: Fpu, loaded: FpuReg, tag: Tag, ghost before: State)
    requires f.Valid() && tag == TagOf(loaded.Val()) && f.S() == before.Push()
    modifies f`partialStatus, f`tagWord, f`top, f.regs, loaded
    ensures f.S() ==
      if tag == Special && NaNBits(old(loaded.Val())) then PushNaN(before, old(loaded.Val()), before.sw)
      else before.Push().Put(0, old(loaded.Val()), tag)
  {
    if tag == Special && NaNBits(loaded.Val()) {
      var ok := RealOneOpNaN(f, loaded);
      if !ok {
        PushTwice(before.top);
        f.top := (f.top + 1) % 0x100;
        return;
      }
    }
    f.CopyToReg(loaded.Val(), tag, 0);
  }

  /** fld m64real */
  method FldDouble(f: Fpu, m64: u32, l64: u32)
    requires f.Valid()
    modifies f`partialStatus, f`tagWord, f`top, f.regs
    ensures f.S() == Load(old(f.S()), Real64(Double(l64, m64)))
  {
    hide GetTag, SetTag, Exception, LoadSingleSpec, LoadDoubleSpec, TagOf, RealNaN;
    ghost var s, d := f.S(), Double(l64, m64);
    var ok := MakeRoom(f);
    if !ok { return; }
    var loaded := new FpuReg(CONST_Z);
    var tag := LoadDouble(f, m64, l64, loaded);
    FinishReal(f, loaded, tag, s.(sw := LoadStatus(s, DoubleDenormal(d))));
  }

  /** fld m32real */
  method FldSingle(f: Fpu, w: u32)
    requires f.Valid()
    modifies f`partialStatus, f`tagWord, f`top, f.regs
    ensures f.S() == Load(old(f.S()), Real32(w))
  {
    hide GetTag, SetTag, Exception, LoadSingleSpec, LoadDoubleSpec, TagOf, RealNaN;
    ghost var s := f.S();
    var ok := MakeRoom(f);
    if !ok { return; }
    var loaded := new FpuReg(CONST_Z);
    var tag := LoadSingle(f, w, loaded);
    FinishReal(f, loaded, tag, s.(sw := LoadStatus(s, SingleDenormal(w))));
  }

  /** fld m80real: the ten bytes go straight to the register. */
  method FldExtended(f: Fpu, r: Reg)
    requires f.Valid()
    modifies f`partialStatus, f`tagWord, f`top, f.regs
    ensures f.S() == Load(old(f.S()), Real80(r))
  {
    var ok := MakeRoom(f);
    if !ok { return; }
    f.regs[f.Phys(0)] := r;
    f.SetTagi(0, TagOf(r));
  }

  /** fild m16int, m32int and m64int, for 16, 32 and 64 bits. */
  method Fild(f: Fpu, bits: nat, v: int)
    requires f.Valid() && (bits == 16 || bits == 32 || bits == 64)
    requires InRange(if bits == 16 then 0x8000 else if bits == 32 then BIT31 else TWO63, v)
    modifies f`partialStatus, f`tagWord, f`top, f.regs
    ensures f.S() == Load(old(f.S()), Signed64(v))
  {
    var ok := MakeRoom(f);
    if !ok { return; }
    var loaded := new FpuReg(CONST_Z);
    var tag;
    if bits == 16 {
      tag := LoadInt16(v, loaded);
    } else if bits == 32 {
      tag := LoadInt32(v, loaded);
    } else {
      tag := LoadInt64(v, loaded);
    }
    f.CopyToReg(loaded.Val(), tag, 0);
  }

  /** fbld m80dec */
  method Fbld(f: Fpu, b: array<u8>)
    requires f.Valid() && b.Length == 10
    modifies f`partialStatus, f`tagWord, f`top, f.regs
    ensures f.S() == Load(old(f.S()), Decimal18(old(b[..])))
  {
    var ok := MakeRoom(f);
    if !ok { return; }
    var loaded := new FpuReg(CONST_Z);
    var tag := LoadBcd(b, loaded);
    f.CopyToReg(loaded.Val(), tag, 0);
  }

  // ----- stores -----

  /** The end of every store: pop only if the number was actually stored. */
  method PopIf(f: Fpu, stored: bool, pop: bool)
    requires f.Valid()
    modifies f`tagWord, f`top
    ensures f.S() == if pop && stored then old(f.S()).Pop() else old(f.S())
  {
    if pop && stored {
      f.SetTagi(0, Empty);
      f.top := (f.top + 1) % 0x100;
    }
  }

  /** fst m64real and fstp m64real */
  method FstDouble(f: Fpu, d: array<u32>, pop: bool)
    requires f.Valid() && Inv(f.S()) && d.Length == 2
    modifies f`partialStatus, f`tagWord, f`top, d
    ensures f.S() == Store(old(f.S()), Double64, pop)
    ensures var out := Conversion(old(f.S()), Double64).0;
      if out == NotStored then d[..] == old(d[..]) else out == DoubleWords(Double(d[0], d[1]))
  {
    TagTrue(f.S(), 0);
    f.partialStatus := ClearC1(f.partialStatus);
    var st0 := new FpuReg(f.St(0));
    var ok := StoreDouble(f, st0, f.GetTagi(0), d);
    PopIf(f, ok, pop);
  }

  /** fst m32real and fstp m32real */
  method FstSingle(f: Fpu, d: array<u32>, pop: bool)
    requires f.Valid() && Inv(f.S()) && d.Length == 1
    modifies f`partialStatus, f`tagWord, f`top, d
    ensures f.S() == Store(old(f.S()), Single, pop)
    ensures var out := Conversion(old(f.S()), Single).0;
      if out == NotStored then d[..] == old(d[..]) else out == Word(d[0])
  {
    TagTrue(f.S(), 0);
    f.partialStatus := ClearC1(f.partialStatus);
    var st0 := new FpuReg(f.St(0));
    var ok := StoreSingle(f, st0, f.GetTagi(0), d);
    PopIf(f, ok, pop);
  }

  /** fstp m80real */
  method FstpExtended(f: Fpu, d: FpuReg)
    requires f.Valid() && Inv(f.S())
    modifies f`partialStatus, f`tagWord, f`top, d
    ensures f.S() == Store(old(f.S()), Extended80, true)
    ensures var out := Conversion(old(f.S()), Extended80).0;
      if out == NotStored then d.Val() == old(d.Val()) else out == Ten(d.Val())
  {
    var tag := f.GetTagi(0);
    f.partialStatus := ClearC1(f.partialStatus);
    var ok := true;
    if tag != Empty {
      d.Set(f.St(0));
    } else {
      f.Exception(StackUnder);
      ok := f.controlWord.masks.invalid;
      if ok {
        d.Set(Reg(0, 0xc000_0000, 0xffff));
      }
    }
    PopIf(f, ok, true);
  }

  /** fist and fistp, for 16, 32 and 64 bits. */
  method Fist(f: Fpu, bits: nat, pop: bool) returns (ok: bool, w: u64)
    requires f.Valid() && Inv(f.S()) && (bits == 16 || bits == 32 || bits == 64)
    modifies f`partialStatus, f`tagWord, f`top
    ensures var half := if bits == 16 then 0x8000 else if bits == 32 then BIT31 else TWO63;
      var out := Conversion(old(f.S()), Int(half)).0;
      && f.S() == Store(old(f.S()), Int(half), pop)
      && out == (if ok then Integer(Signed(half, w)) else NotStored)
  {
    TagTrue(f.S(), 0);
    f.partialStatus := ClearC1(f.partialStatus);
    var st0 := new FpuReg(f.St(0));
    if bits == 16 {
      ok, w := StoreInt16(f, st0, f.GetTagi(0));
    } else if bits == 32 {
      ok, w := StoreInt32(f, st0, f.GetTagi(0));
    } else {
      ok, w := StoreInt64(f, st0, f.GetTagi(0));
    }
    PopIf(f, ok, pop);
  }

  /** fbstp m80dec */
  method Fbstp(f: Fpu, d: array<u8>)
    requires f.Valid() && Inv(f.S()) && d.Length == 10
    modifies f`partialStatus, f`tagWord, f`top, d
    ensures f.S() == Store(old(f.S()), Decimal80, true)
    ensures var out := Conversion(old(f.S()), Decimal80).0;
      if out == NotStored then d[..] == old(d[..]) else out == Packed(d[..])
  {
    TagTrue(f.S(), 0);
    f.partialStatus := ClearC1(f.partialStatus);
    var st0 := new FpuReg(f.St(0));
    var ok := StoreBcd(f, st0, f.GetTagi(0), d);
    PopIf(f, ok, true);
  }

  // ----- control word and environment -----

  /** What fldcw and fldenv do after loading the words. */
  method FixSummary(f: Fpu)
    requires f.Valid()
    modifies f`partialStatus
    ensures f.partialStatus == RecomputeSummary(f.controlWord, old(f.partialStatus))
  {
    if Pending(f.controlWord, f.partialStatus) {
      f.partialStatus := f.partialStatus.(summary := true, backward := true);
    } else {
      f.partialStatus := f.partialStatus.(summary := false, backward := false);
    }
  }

  method FldcwCode(f: Fpu, cw: Control)
    requires f.Valid()
    modifies f`controlWord, f`partialStatus
    ensures f.S() == Fldcw(old(f.S()), cw)
  {
    f.controlWord := cw;
    FixSummary(f);
    f.controlWord := f.controlWord.(bit6 := true);
  }

  lemma ShiftMore(w: bv16, a: bv16)
    requires a <= 12
    ensures (w >> a) >> 2 == w >> (a + 2)
  {
  }

  /** tag_word >>= 2 moves on to the next register's tag. */
  lemma NextTag(w: bv16, i: nat)
    requires i < 7
    ensures (w >> Shift(i)) >> 2 == w >> Shift(i + 1)
  {
    hide Shift;
    TwoFurther(i);
    ShiftMore(w, Shift(i));
  }

  lemma TwoFurther(i: nat)
    requires i < 7
    ensures Shift(i) <= 12 && Shift(i + 1) == Shift(i) + 2
  {
  }

  /** The tag word, tag by tag. */
  function AllTags(w: bv16): (tags: seq<Tag>)
    ensures |tags| == 8
  {
    seq(8, i requires 0 <= i < 8 => GetTag(w, i))
  }

  lemma SetOne(w: bv16, i: nat, t: Tag)
    requires i < 8 && StackTag(t)
    ensures AllTags(SetTag(w, i, t)) == AllTags(w)[i := t]
  {
    TagBitsBack(t);
    forall j: nat | j < 8 ensures AllTags(SetTag(w, i, t))[j] == AllTags(w)[i := t][j] {
      GetSetTag(w, i, j, t);
    }
  }

  lemma AllTagsIs(w: bv16, tags: seq<Tag>)
    requires AllTags(w) == tags && forall k: nat :: k < 8 ==> StackTag(tags[k])
    ensures w == TagWord(tags, 8)
  {
    forall j: nat | j < 8 ensures GetTag(w, j) == GetTag(TagWord(tags, 8), j) {
      TagWordHolds(tags, 8, j);
      assert AllTags(w)[j] == GetTag(w, j);
    }
    SameTags(w, TagWord(tags, 8));
  }

  function TagFrom(tag: Tag, now: Tag, r: Reg): Tag {
    if tag == Empty then Empty else if now == Empty then TagOf(r) else now
  }

  /** The tag that the loop of fldenv gives one register. */
  method TagFromEnv(f: Fpu, tag: Tag, i: nat)
    requires f.Valid() && i < 8
    modifies f`tagWord
    ensures var tags := AllTags(old(f.tagWord));
      AllTags(f.tagWord) == tags[i := TagFrom(tag, tags[i], f.regs[i])]
  {
    var r := f.regs[i];
    ghost var w := f.tagWord;
    if tag == Empty {
      f.tagWord := SetTag(f.tagWord, i, Empty);
      SetOne(w, i, Empty);
    } else if GetTag(f.tagWord, i) == Empty {
      var t;
      if r.Exponent() == 0 - EXTENDED_Ebias {
        t := if r.sigl == 0 && r.sigh == 0 then Zero else Special;
      } else if r.Exponent() == 0x7fff - EXTENDED_Ebias {
        t := Special;
      } else {
        t := if r.sigh >= BIT31 then Valid else Special;
      }
      assert t == TagOf(r);
      f.tagWord := SetTag(f.tagWord, i, t);
      SetOne(w, i, t);
    }
  }

  /** The tag word of the image with the tags below i shifted out. */
  function Remaining(tw: bv16, i: nat): bv16 {
    if i < 8 then tw >> Shift(i) else 0
  }

  /** tag = tag_word & 3; tag_word >>= 2; */
  method TakeTag(tw: bv16, i: nat, tagWord: bv16) returns (tag: Tag, next: bv16)
    requires i < 8 && tagWord == Remaining(tw, i)
    ensures tag == GetTag(tw, i) && next == Remaining(tw, i + 1)
  {
    hide BitsTag, GetTag, Remaining;
    tag := BitsTag(tagWord & 3);
    next := tagWord >> 2;
    LowestTag(tw, i);
    NextRemaining(tw, i);
  }

  lemma LowestTag(tw: bv16, i: nat)
    requires i < 8
    ensures BitsTag(Remaining(tw, i) & 3) == GetTag(tw, i)
  {
    hide BitsTag, Shift;
  }

  lemma NextRemaining(tw: bv16, i: nat)
    requires i < 8
    ensures Remaining(tw, i) >> 2 == Remaining(tw, i + 1)
  {
    hide Shift;
    if i < 7 { NextTag(tw, i); } else { NothingLeft(tw); }
  }

  lemma NothingLeft(tw: bv16)
    ensures (tw >> Shift(7)) >> 2 == 0
  {
  }

  lemma LoadedFrom(theirs: bv16, mine: bv16, st: Stack, i: nat)
    requires i < 8
    ensures LoadedTags(theirs, mine, st)[i] == TagFrom(GetTag(theirs, i), AllTags(mine)[i], st[i])
  {
  }

  lemma Given(theirs: bv16, mine: bv16, st: Stack)
    ensures forall k: nat :: k < 8 ==> StackTag(LoadedTags(theirs, mine, st)[k])
    ensures forall k: nat :: k < 8 ==> StackTag(OwnTags(mine, st)[k])
  {
  }

  lemma Advance(now: seq<Tag>, next: seq<Tag>, tags: seq<Tag>, mine: seq<Tag>, i: nat)
    requires |now| == |tags| == |mine| == 8 && i < 8
    requires now == tags[..i] + mine[i..] && next == now[i := tags[i]]
    ensures now[i] == mine[i] && next == tags[..i + 1] + mine[i + 1..]
  {
  }

  lemma StillMine(now: seq<Tag>, tags: seq<Tag>, mine: seq<Tag>, i: nat)
    requires |tags| == |mine| == 8 && i < 8 && now == tags[..i] + mine[i..]
    ensures now[i] == mine[i]
  {
  }

  method LoadTags(f: Fpu, tw: bv16)
    requires f.Valid()
    modifies f`tagWord
    ensures f.tagWord == TagWord(LoadedTags(tw, old(f.tagWord), f.regs[..]), 8)
  {
    ghost var was, mine := f.tagWord, AllTags(f.tagWord);
    ghost var tags := LoadedTags(tw, was, f.regs[..]);
    var tagWord, i := tw, 0;
    while i < 8
      invariant 0 <= i <= 8
      invariant tagWord == Remaining(tw, i)
      invariant AllTags(f.tagWord) == tags[..i] + mine[i..]
    {
      LoadedFrom(tw, was, f.regs[..], i);
      StillMine(AllTags(f.tagWord), tags, mine, i);
      ghost var now := AllTags(f.tagWord);
      var tag;
      tag, tagWord := TakeTag(tw, i, tagWord);
      TagFromEnv(f, tag, i);
      Advance(now, AllTags(f.tagWord), tags, mine, i);
      i := i + 1;
    }
    assert tags[..8] + mine[8..] == tags;
    Given(tw, was, f.regs[..]);
    AllTagsIs(f.tagWord, tags);
  }

  method FldenvCode(f: Fpu, e: Env)
    requires f.Valid()
    modifies f`controlWord, f`partialStatus, f`tagWord, f`top
    ensures f.S() == Fldenv(old(f.S()), e)
  {
    f.controlWord, f.partialStatus := e.cw, e.sw;
    f.controlWord := f.controlWord.(bit7 := false, high := 0);
    f.top := e.top;
    FixSummary(f);
    LoadTags(f, e.tw);
  }

  /** The two copies of frstor: the image is in stack order. */
  method CopyIn(f: Fpu, image: array<Reg>)
    requires f.Valid() && image.Length == 8 && image != f.regs
    modifies f.regs
    ensures f.regs[..] == Unrotated(image[..], f.top % 8)
  {
    var offset := f.top % 8;
    var other := 8 - offset;
    forall k | 0 <= k < other { f.regs[offset + k] := image[k]; }
    if offset != 0 {
      forall k | 0 <= k < offset { f.regs[k] := image[other + k]; }
    }
    assert f.regs[..] == Unrotated(image[..], offset);
  }

  /** Physical register j is st(i) for exactly one i. */
  lemma Position(top: u8, i: nat, j: nat)
    requires i < 8 && j < 8
    ensures (j - top) % 8 == i <==> j == (i + top) % 8
  {
    if (j - top) % 8 == i {
      Arith.ModAddLeft(j - top, top, 8);
    } else if j == (i + top) % 8 {
      Arith.ModSubRight(i + top, top, 8);
    }
  }

  /** The tags of st(0) to st(i - 1) are new. */
  ghost function Partly(tags: seq<Tag>, mine: seq<Tag>, top: u8, i: nat): seq<Tag>
    requires |tags| == |mine| == 8
  {
    seq(8, j requires 0 <= j < 8 => if (j - top) % 8 < i then tags[j] else mine[j])
  }

  lemma PartlyNext(tags: seq<Tag>, mine: seq<Tag>, top: u8, i: nat)
    requires |tags| == |mine| == 8 && i < 8
    ensures var regnr, now := (i + top) % 8, Partly(tags, mine, top, i);
      now[regnr] == mine[regnr] && Partly(tags, mine, top, i + 1) == now[regnr := tags[regnr]]
  {
    var regnr := (i + top) % 8;
    var before, after := Partly(tags, mine, top, i), Partly(tags, mine, top, i + 1);
    forall j: nat | j < 8 ensures after[j] == before[regnr := tags[regnr]][j] {
      Position(top, i, j);
    }
    Position(top, i, regnr);
  }

  /** The loop of frstor: registers in use get the tags of the loaded data. */
  method OwnTagsCode(f: Fpu)
    requires f.Valid()
    modifies f`tagWord
    ensures f.tagWord == TagWord(OwnTags(old(f.tagWord), f.regs[..]), 8)
  {
    ghost var was, mine := f.tagWord, AllTags(f.tagWord);
    ghost var tags := OwnTags(was, f.regs[..]);
    var i := 0;
    assert Partly(tags, mine, f.top, 0) == mine;
    while i < 8
      invariant 0 <= i <= 8
      invariant AllTags(f.tagWord) == Partly(tags, mine, f.top, i)
    {
      var regnr := (i + f.top) % 8;
      PartlyNext(tags, mine, f.top, i);
      OwnTag(f, regnr);
      i := i + 1;
    }
    Given(0, was, f.regs[..]);
    assert Partly(tags, mine, f.top, 8) == tags;
    AllTagsIs(f.tagWord, tags);
  }

  method OwnTag(f: Fpu, regnr: nat)
    requires f.Valid() && regnr < 8
    modifies f`tagWord
    ensures var tags := AllTags(old(f.tagWord));
      AllTags(f.tagWord) == tags[regnr := if tags[regnr] != Empty then TagOf(f.regs[regnr]) else Empty]
  {
    if GetTag(f.tagWord, regnr) != Empty {
      SetOne(f.tagWord, regnr, TagOf(f.regs[regnr]));
      f.tagWord := SetTag(f.tagWord, regnr, TagOf(f.regs[regnr]));
    }
  }

  method FrstorCode(f: Fpu, e: Env, image: array<Reg>)
    requires f.Valid() && image.Length == 8 && image != f.regs
    modifies f`controlWord, f`partialStatus, f`tagWord, f`top, f.regs
    ensures f.S() == Frstor(old(f.S()), e, image[..])
  {
    FldenvCode(f, e);
    ghost var s := f.S();
    CopyIn(f, image);
    assert f.S() == s.(st := Unrotated(image[..], e.top));
    OwnTagsCode(f);
  }

  /** The 32-bit layout. */
  method FstenvCode(f: Fpu) returns (d: Env)
    requires f.Valid()
    modifies f`controlWord, f`partialStatus
    ensures d == EnvOf(old(f.S())) && f.S() == Fstenv(old(f.S()))
  {
    f.controlWord := f.controlWord.(bit7 := false, high := 0);
    f.controlWord := f.controlWord.(bit6 := true);
    d := Env(f.controlWord, f.partialStatus, f.top % 8, f.tagWord);
    f.controlWord := f.controlWord.(masks := ALL_MASKED);
    f.partialStatus := f.partialStatus.(summary := false, backward := false);
  }

  /** The two copies of fsave. */
  method CopyOut(f: Fpu, offset: StNum, image: array<Reg>)
    requires f.Valid() && image.Length == 8 && image != f.regs
    modifies image
    ensures image[..] == Rotated(f.regs[..], offset)
  {
    var other := 8 - offset;
    forall k | 0 <= k < other { image[k] := f.regs[offset + k]; }
    if offset != 0 {
      forall k | 0 <= k < offset { image[other + k] := f.regs[k]; }
    }
  }

  method FsaveCode(f: Fpu, image: array<Reg>) returns (d: Env)
    requires f.Valid() && image.Length == 8 && image != f.regs
    modifies f, f.regs, image
    ensures f.S() == INIT
    ensures d == EnvOf(old(f.S())) && image[..] == Rotated(old(f.S()).st, old(f.S()).top % 8)
  {
    var offset := f.top % 8;
    d := FstenvCode(f);
    CopyOut(f, offset, image);
    Finit(f);
  }
}
