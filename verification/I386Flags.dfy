/** The eflags of additions and subtractions in libasmir/src/vex/irtoir-i386.cpp: the
    moves that mod_eflags_* appends leave exactly the architectural flags. */
module I386Flags {
  import opened Arith
  import opened Powers
  import opened Bits
  import opened FlagExprs
  import opened FlagMath
  import opened FlagFormulas

  /** The result temporary and the low byte of it. */
  const RES := Temp(Local(0), 32)
  const PF8 := Temp(Local(1), 8)

  const ALL_ONES := C32(0xffff_ffff)

  /** mask_overflow */
  function MaskOverflow(e: Exp, w: nat): Exp {
    if w == 32 then e else BinOp(BITAND, e, C32(Pow2(w) - 1))
  }

  /** narrow32 */
  function Narrow32(e: Exp, w: nat): Exp {
    if w == 32 then e else Cast(e, w, CAST_LOW)
  }

  function CondAF(arg1: Exp, arg2: Exp): Exp {
    BinOp(EQ, C32(0x10), BinOp(BITAND, C32(0x10), Xor3(RES, arg1, arg2)))
  }

  function BitTest(e: Exp, k: nat): Exp { BinOp(EQ, C32(1), BinOp(BITAND, C32(1), Shr(e, k))) }

  function CondOFAdd(arg1: Exp, arg2: Exp, w: nat): Exp
    requires w >= 1
  {
    BitTest(BinOp(BITAND, Xor3(arg1, arg2, ALL_ONES), Xor2(arg1, RES)), w - 1)
  }

  function CondOFSbb(arg1: Exp, arg2: Exp, w: nat): Exp
    requires w >= 1
  {
    BitTest(BinOp(BITAND, Xor2(arg1, arg2), Xor2(arg1, RES)), w - 1)
  }

  // ----- what they evaluate to -----

  lemma {:induction false} MaskIsLowPart(x: nat, w: nat, mask: nat)
    requires mask == Pow2(w) - 1
    ensures And(x, mask) == LowPart(x, w)
  {
    Masked(x, w);
    LowPartIs(x, w);
  }

  lemma {:induction false} EvMaskOverflow(e: Exp, w: nat, env: Env)
    requires 1 <= w <= 32 && Typed(e) && Width(e) == 32
    ensures Ev(MaskOverflow(e, w), env) == LowPart(Ev(e, env), w)
  {
    hide Ev, EvBinOp, EvUnOp, LowPart, Pow2;
    var mask := Pow2(w) - 1;
    EvFits(e, env);
    if w == 32 {
      LowPartSmall(Ev(e, env), w);
    } else {
      EvAnd(e, C32(mask), env);
      EvConstant(32, mask, env);
      MaskIsLowPart(Ev(e, env), w, mask);
    }
  }

  lemma {:induction false} EvBitTest(e: Exp, k: nat, env: Env)
    requires k < Width(e)
    ensures Ev(BitTest(e, k), env) == Bit(Ev(e, env), k)
  {
    EvShr(e, k, env);
    EvConstant(32, 1, env);
    EvAnd(C32(1), Shr(e, k), env);
    AndOne(ShiftedRight(Ev(e, env), k));
    ShiftedBit(Ev(e, env), k);
    EvEqual(C32(1), BinOp(BITAND, C32(1), Shr(e, k)), env);
  }

  lemma {:induction false} EvCondAF(arg1: Exp, arg2: Exp, env: Env)
    ensures Ev(CondAF(arg1, arg2), env) == Bit(Xor(Ev(RES, env), Xor(Ev(arg1, env), Ev(arg2, env))), 4)
  {
    var x := Xor3(RES, arg1, arg2);
    EvXor3(RES, arg1, arg2, env);
    AndSixteen(Ev(x, env));
    EvConstant(32, 0x10, env);
    EvAnd(C32(0x10), x, env);
    EvEqual(C32(0x10), BinOp(BITAND, C32(0x10), x), env);
  }

  lemma {:induction false} OnesOf32(k: nat)
    requires k < 32
    ensures Bit(0xffff_ffff, k) == 1
  {
    Pow2Values();
    BitOfOnes(32, k);
  }

  lemma {:induction false} AddOverflowBit(a: nat, b: nat, r: nat, ones: nat, k: nat)
    requires Bit(ones, k) == 1
    ensures Bit(And(Xor(a, Xor(b, ones)), Xor(a, r)), k) == Truth(Bit(a, k) == Bit(b, k) && Bit(a, k) != Bit(r, k))
  {
    XorBit(b, ones, k);
    XorBit(a, Xor(b, ones), k);
    XorBit(a, r, k);
    AndBit(Xor(a, Xor(b, ones)), Xor(a, r), k);
  }

  lemma {:induction false} EvAddBits(arg1: Exp, arg2: Exp, env: Env)
    ensures Ev(BinOp(BITAND, Xor3(arg1, arg2, ALL_ONES), Xor2(arg1, RES)), env)
         == And(Xor(Ev(arg1, env), Xor(Ev(arg2, env), 0xffff_ffff)), Xor(Ev(arg1, env), Ev(RES, env)))
  {
    EvConstant(32, 0xffff_ffff, env);
    EvXor3(arg1, arg2, ALL_ONES, env);
    EvXor(arg1, RES, env);
    EvAnd(Xor3(arg1, arg2, ALL_ONES), Xor2(arg1, RES), env);
  }

  lemma {:induction false} EvCondOFAdd(arg1: Exp, arg2: Exp, w: nat, env: Env)
    requires 1 <= w <= 32 && Width(arg1) == 32
    ensures var a, b, r := Bit(Ev(arg1, env), w - 1), Bit(Ev(arg2, env), w - 1), Bit(Ev(RES, env), w - 1);
      Ev(CondOFAdd(arg1, arg2, w), env) == Truth(a == b && a != r)
  {
    hide Ev, EvBinOp, EvUnOp, Bit, Pow2, And, Xor;
    EvAddBits(arg1, arg2, env);
    OnesOf32(w - 1);
    AddOverflowBit(Ev(arg1, env), Ev(arg2, env), Ev(RES, env), 0xffff_ffff, w - 1);
    EvBitTest(BinOp(BITAND, Xor3(arg1, arg2, ALL_ONES), Xor2(arg1, RES)), w - 1, env);
  }

  lemma {:induction false} SubOverflowBit(a: nat, b: nat, r: nat, k: nat)
    ensures Bit(And(Xor(a, b), Xor(a, r)), k) == Truth(Bit(a, k) != Bit(b, k) && Bit(a, k) != Bit(r, k))
  {
    XorBit(a, b, k);
    XorBit(a, r, k);
    AndBit(Xor(a, b), Xor(a, r), k);
  }

  lemma {:induction false} EvSubBits(arg1: Exp, arg2: Exp, env: Env)
    ensures Ev(BinOp(BITAND, Xor2(arg1, arg2), Xor2(arg1, RES)), env)
         == And(Xor(Ev(arg1, env), Ev(arg2, env)), Xor(Ev(arg1, env), Ev(RES, env)))
  {
    EvXor(arg1, arg2, env);
    EvXor(arg1, RES, env);
    EvAnd(Xor2(arg1, arg2), Xor2(arg1, RES), env);
  }

  lemma {:induction false} EvCondOFSbb(arg1: Exp, arg2: Exp, w: nat, env: Env)
    requires 1 <= w <= 32 && Width(arg1) == 32
    ensures var a, b, r := Bit(Ev(arg1, env), w - 1), Bit(Ev(arg2, env), w - 1), Bit(Ev(RES, env), w - 1);
      Ev(CondOFSbb(arg1, arg2, w), env) == Truth(a != b && a != r)
  {
    hide Ev, EvBinOp, EvUnOp, Bit, Pow2, And, Xor;
    EvSubBits(arg1, arg2, env);
    SubOverflowBit(Ev(arg1, env), Ev(arg2, env), Ev(RES, env), w - 1);
    EvBitTest(BinOp(BITAND, Xor2(arg1, arg2), Xor2(arg1, RES)), w - 1, env);
  }

  // ----- emitting -----

  /** The environment after the result has been computed. */
  ghost predicate HasResult(e: Env, r: nat) { Local(0) in e && e[Local(0)] == r && r < 0x1_0000_0000 }

  lemma {:induction false} EvResult(e: Env, r: nat)
    requires HasResult(e, r)
    ensures Ev(RES, e) == r
  {
    Pow2Values();
    EvLocal(0, 32, e, r);
  }

  /** set_flag */
  method SetFlag(irout: seq<Stmt>, flag: FlagName, cond: Exp, ghost env: Env, ghost e: Env)
      returns (out: seq<Stmt>, ghost e': Env)
    requires Exec(irout, env) == e && SameInputs(env, e) && Ev(cond, e) <= 1
    ensures Exec(out, env) == e' && SameInputs(env, e')
    ensures forall g :: Get(e', g) == if g == flag then Ev(cond, e) else Get(e, g)
    ensures forall r :: HasResult(e, r) ==> HasResult(e', r)
  {
    out, e' := Push(irout, Flag(flag), cond, env, e);
    forall g ensures Get(e', g) == if g == flag then Ev(cond, e) else Get(e, g) {
      GetSet(e, flag, g, Ev(cond, e));
    }
  }

  /** PF, from the low byte of the result. */
  method SetParity(irout: seq<Stmt>, ghost r: nat, ghost env: Env, ghost e: Env)
      returns (out: seq<Stmt>, ghost e': Env)
    requires Exec(irout, env) == e && SameInputs(env, e) && HasResult(e, r)
    ensures Exec(out, env) == e' && SameInputs(env, e') && HasResult(e', r)
    ensures Get(e', PF) == Truth(EvenParity(r)) && Get(e', CF) == Get(e, CF)
  {
    out, e' := Push(irout, Local(1), Cast(RES, 8, CAST_LOW), env, e);
    EvResult(e, r);
    LowByte(e, e', r);
    assert Get(e', CF) == Get(e, CF);
    EvParity8(PF8, e');
    ParityOfByte(r);
    out, e' := SetFlag(out, PF, Parity8(PF8), env, e');
  }

  /** PF, AF and ZF, which all four operations compute alike. */
  method SetCommonFlags(irout: seq<Stmt>, arg1: Exp, arg2: Exp, ghost r: nat, ghost env: Env, ghost e: Env)
      returns (out: seq<Stmt>, ghost e': Env)
    requires Exec(irout, env) == e && SameInputs(env, e) && HasResult(e, r)
    requires InputsOnly(arg1) && InputsOnly(arg2)
    ensures Exec(out, env) == e' && SameInputs(env, e') && HasResult(e', r)
    ensures Get(e', PF) == Truth(EvenParity(r)) && Get(e', ZF) == Truth(r == 0)
    ensures Get(e', AF) == Bit(Xor(r, Xor(Ev(arg1, env), Ev(arg2, env))), 4)
    ensures Get(e', CF) == Get(e, CF)
  {
    out, e' := SetParity(irout, r, env, e);
    EvCondAF(arg1, arg2, e');
    EvResult(e', r);
    InputsKeep(arg1, env, e');
    InputsKeep(arg2, env, e');
    out, e' := SetFlag(out, AF, CondAF(arg1, arg2), env, e');
    EvResult(e', r);
    out, e' := SetFlag(out, ZF, BinOp(EQ, RES, C32(0)), env, e');
  }

  lemma {:induction false} LowByte(e: Env, e': Env, r: nat)
    requires HasResult(e, r) && e' == e[Local(1) := Ev(Cast(RES, 8, CAST_LOW), e)]
    ensures Ev(PF8, e') == r % 0x100 && HasResult(e', r)
  {
    EvResult(e, r);
    EvCast(RES, 8, e);
    LowPartIs(r, 8);
    LowPartFits(r, 8);
    SmallPowers();
    EvLocal(1, 8, e', r % 0x100);
  }

  // ----- the four operations -----

  /** SF and OF as add and adc compute them. */
  method SetSignFlagsAdd(irout: seq<Stmt>, arg1: Exp, arg2: Exp, w: nat, ghost r: nat, ghost env: Env, ghost e: Env)
      returns (out: seq<Stmt>, ghost e': Env)
    requires 8 <= w <= 32 && Operand(arg1, 32, w, env) && Operand(arg2, 32, w, env)
    requires Exec(irout, env) == e && SameInputs(env, e) && HasResult(e, r) && r < Pow2(w)
    ensures Exec(out, env) == e' && SameInputs(env, e')
    ensures Get(e', SF) == Truth(Negative(w, r))
    ensures var a, b := Negative(w, Ev(arg1, env)), Negative(w, Ev(arg2, env));
      Get(e', OF) == Truth(a == b && a != Negative(w, r))
    ensures forall g :: g != SF && g != OF ==> Get(e', g) == Get(e, g)
  {
    hide Ev, EvBinOp, EvUnOp, LowPart, Pow2, Xor, And, Or;
    EvBitTest(RES, w - 1, e);
    EvResult(e, r);
    SignIsTopBit(w, r);
    out, e' := SetFlag(irout, SF, BitTest(RES, w - 1), env, e);
    EvCondOFAdd(arg1, arg2, w, e');
    EvResult(e', r);
    InputsKeep(arg1, env, e');
    InputsKeep(arg2, env, e');
    SignIsTopBit(w, Ev(arg1, env));
    SignIsTopBit(w, Ev(arg2, env));
    out, e' := SetFlag(out, OF, CondOFAdd(arg1, arg2, w), env, e');
  }

  lemma {:induction false} ResultFits(x: int, w: nat)
    requires w <= 32
    ensures LowPart(x, w) < Pow2(w) <= 0x1_0000_0000
  {
    Pow2Values();
    LowPartFits(x, w);
    Pow2Mono(w, 32);
  }

  /** expr computes x, truncated to the machine's word. */
  ghost predicate Computes(expr: Exp, x: int, env: Env) {
    Typed(expr) && Width(expr) == 32 && Ev(expr, env) == LowPart(x, 32)
  }

  lemma {:induction false} SumComputes(arg1: Exp, arg2: Exp, w: nat, env: Env)
    requires 8 <= w <= 32 && Operand(arg1, 32, w, env) && Operand(arg2, 32, w, env)
    ensures Computes(BinOp(PLUS, arg1, arg2), Ev(arg1, env) + Ev(arg2, env) + 0, env)
    ensures Computes(BinOp(MINUS, arg1, arg2), Ev(arg1, env) - Ev(arg2, env) - 0, env)
  {
    EvPlus(arg1, arg2, env);
    EvMinus(arg1, arg2, env);
  }

  lemma {:induction false} CarrySumComputes(arg1: Exp, arg2: Exp, carry: Exp, w: nat, env: Env)
    requires 8 <= w <= 32 && Operand(arg1, 32, w, env) && Operand(arg2, 32, w, env) && Operand(carry, 32, 1, env)
    ensures Computes(BinOp(PLUS, BinOp(PLUS, arg1, arg2), carry), Ev(arg1, env) + Ev(arg2, env) + Ev(carry, env), env)
  {
    EvSum(arg1, arg2, carry, env, 32);
    assert Typed(BinOp(PLUS, arg1, arg2));
  }

  lemma {:induction false} BorrowComputes(arg1: Exp, arg2: Exp, borrow: Exp, w: nat, env: Env)
    requires 8 <= w <= 32 && Operand(arg1, 32, w, env) && Operand(arg2, 32, w, env) && Operand(borrow, 32, 1, env)
    ensures Computes(BinOp(MINUS, BinOp(MINUS, arg1, arg2), borrow),
             Ev(arg1, env) - Ev(arg2, env) - Ev(borrow, env), env)
  {
    EvDifference(arg1, arg2, borrow, env, 32);
    assert Typed(BinOp(MINUS, arg1, arg2));
  }

  /** The operation itself: x is the exact result. */
  method PushResult(expr: Exp, w: nat, ghost x: int, ghost env: Env) returns (out: seq<Stmt>, ghost e: Env)
    requires 1 <= w <= 32 && Computes(expr, x, env)
    ensures Exec(out, env) == e && SameInputs(env, e) && HasResult(e, LowPart(x, w)) && LowPart(x, w) < Pow2(w)
  {
    EvMaskOverflow(expr, w, env);
    LowTwice(x, w, 32);
    ResultFits(x, w);
    out, e := Push([], Local(0), MaskOverflow(expr, w), env, env);
  }

  /** For zero-extended operands of w bits, the moves that mod_eflags_add emits leave
      the flags of the addition. */
  method ModEflagsAdd(w: nat, arg1: Exp, arg2: Exp, ghost env: Env) returns (irout: seq<Stmt>)
    requires 8 <= w <= 32 && Operand(arg1, 32, w, env) && Operand(arg2, 32, w, env)
    ensures X86FlagsOf(Exec(irout, env)) == AddFlags(w, Ev(arg1, env), Ev(arg2, env), 0)
  {
    hide Ev, EvBinOp, EvUnOp, LowPart, Typed, Width, Pow2, X86FlagsOf, AddBits, SubBits, SubBitsSigned, AddFlags,
         SubFlags, Exec;
    irout := EmitAdd(w, arg1, arg2, env);
    AddMeaning(X86FlagsOf(Exec(irout, env)), w, Ev(arg1, env), Ev(arg2, env), 0);
  }

  method EmitAdd(w: nat, arg1: Exp, arg2: Exp, ghost env: Env) returns (irout: seq<Stmt>)
    requires 8 <= w <= 32 && Operand(arg1, 32, w, env) && Operand(arg2, 32, w, env)
    ensures var a, b := Ev(arg1, env), Ev(arg2, env);
      X86FlagsOf(Exec(irout, env)) == AddBits(w, a, b, 0, LowPart(a + b + 0, w))
  {
    hide Ev, EvBinOp, EvUnOp, LowPart, Pow2, Width, Typed;
    ghost var x, e := Ev(arg1, env) + Ev(arg2, env) + 0, env;
    SumComputes(arg1, arg2, w, env);
    irout, e := PushResult(BinOp(PLUS, arg1, arg2), w, x, env);
    EvResult(e, LowPart(x, w));
    InputsKeep(arg1, env, e);
    EvOrder(RES, arg1, e);
    irout, e := SetFlag(irout, CF, BinOp(LT, RES, arg1), env, e);
    irout := FinishAdd(irout, arg1, arg2, w, 0, LowPart(x, w), env, e);
  }

  /** The flags after CF, which add and adc compute alike. */
  method FinishAdd(irout: seq<Stmt>, arg1: Exp, arg2: Exp, w: nat, ghost c: nat, ghost r: nat, ghost env: Env,
          ghost e: Env)
      returns (out: seq<Stmt>)
    requires 8 <= w <= 32 && Operand(arg1, 32, w, env) && Operand(arg2, 32, w, env)
    requires Exec(irout, env) == e && SameInputs(env, e) && HasResult(e, r) && r < Pow2(w)
    requires Get(e, CF) == Truth(if c == 1 then r <= Ev(arg1, env) else r < Ev(arg1, env))
    ensures X86FlagsOf(Exec(out, env)) == AddBits(w, Ev(arg1, env), Ev(arg2, env), c, r)
  {
    ghost var e';
    out, e' := SetCommonFlags(irout, arg1, arg2, r, env, e);
    out, e' := SetSignFlagsAdd(out, arg1, arg2, w, r, env, e');
  }

  lemma {:induction false} EvNarrow32(e: Exp, w: nat, env: Env)
    requires 1 <= w <= 32 && Operand(e, 32, w, env)
    ensures var n := Narrow32(e, w); Typed(n) && Width(n) == w && Ev(n, env) == Ev(e, env)
  {
    EvCast(e, w, env);
    LowPartSmall(Ev(e, env), w);
  }

  /** SF and OF as sub computes them, from the narrowed operands. */
  method SetSignFlagsSub(irout: seq<Stmt>, arg1: Exp, arg2: Exp, w: nat, ghost r: nat, ghost env: Env, ghost e: Env)
      returns (out: seq<Stmt>, ghost e': Env)
    requires 8 <= w <= 32 && Operand(arg1, 32, w, env) && Operand(arg2, 32, w, env)
    requires Exec(irout, env) == e && SameInputs(env, e) && HasResult(e, r) && r < Pow2(w)
    ensures Exec(out, env) == e' && SameInputs(env, e')
    ensures Get(e', SF) == Truth(Negative(w, r))
    ensures Get(e', OF) == Truth(Negative(w, r) != (Signed(w, Ev(arg1, env)) < Signed(w, Ev(arg2, env))))
    ensures forall g :: g != SF && g != OF ==> Get(e', g) == Get(e, g)
  {
    hide Ev, EvBinOp, EvUnOp, LowPart, Pow2, Xor, And, Or;
    var condSF := HighBit(Narrow32(RES, w));
    EvNarrowedResult(e, w, r);
    out, e' := SetFlag(irout, SF, condSF, env, e);
    EvNarrowedResult(e', w, r);
    InputsKeep(arg1, env, e');
    InputsKeep(arg2, env, e');
    EvNarrow32(arg1, w, e');
    EvNarrow32(arg2, w, e');
    var less := BinOp(SLT, Narrow32(arg1, w), Narrow32(arg2, w));
    EvSigned(Narrow32(arg1, w), Narrow32(arg2, w), e', w);
    TruthOps(Negative(w, r), Signed(w, Ev(arg1, env)) < Signed(w, Ev(arg2, env)));
    EvXor(condSF, less, e');
    out, e' := SetFlag(out, OF, Xor2(condSF, less), env, e');
  }

  lemma {:induction false} EvNarrowedResult(e: Env, w: nat, r: nat)
    requires 1 <= w <= 32 && HasResult(e, r) && r < Pow2(w)
    ensures Ev(HighBit(Narrow32(RES, w)), e) == Truth(Negative(w, r))
  {
    EvResult(e, r);
    EvCast(RES, w, e);
    LowPartSmall(r, w);
    EvHighBit(Narrow32(RES, w), e);
  }

  method ModEflagsSub(w: nat, arg1: Exp, arg2: Exp, ghost env: Env) returns (irout: seq<Stmt>)
    requires 8 <= w <= 32 && Operand(arg1, 32, w, env) && Operand(arg2, 32, w, env)
    ensures X86FlagsOf(Exec(irout, env)) == SubFlags(w, Ev(arg1, env), Ev(arg2, env), 0)
  {
    hide Ev, EvBinOp, EvUnOp, LowPart, Typed, Width, Pow2, X86FlagsOf, AddBits, SubBits, SubBitsSigned, AddFlags,
         SubFlags, Exec;
    irout := EmitSub(w, arg1, arg2, env);
    SubMeaningSigned(X86FlagsOf(Exec(irout, env)), w, Ev(arg1, env), Ev(arg2, env), 0);
  }

  method EmitSub(w: nat, arg1: Exp, arg2: Exp, ghost env: Env) returns (irout: seq<Stmt>)
    requires 8 <= w <= 32 && Operand(arg1, 32, w, env) && Operand(arg2, 32, w, env)
    ensures var a, b := Ev(arg1, env), Ev(arg2, env);
      X86FlagsOf(Exec(irout, env)) == SubBitsSigned(w, a, b, 0, LowPart(a - b - 0, w))
  {
    hide Ev, EvBinOp, EvUnOp, LowPart, Pow2, Width, Typed;
    ghost var x, e := Ev(arg1, env) - Ev(arg2, env) - 0, env;
    SumComputes(arg1, arg2, w, env);
    irout, e := PushResult(BinOp(MINUS, arg1, arg2), w, x, env);
    InputsKeep(arg1, env, e);
    InputsKeep(arg2, env, e);
    EvOrder(arg1, arg2, e);
    irout, e := SetFlag(irout, CF, BinOp(LT, arg1, arg2), env, e);
    irout := FinishSub(irout, arg1, arg2, w, LowPart(x, w), env, e);
  }

  method FinishSub(irout: seq<Stmt>, arg1: Exp, arg2: Exp, w: nat, ghost r: nat, ghost env: Env, ghost e: Env)
      returns (out: seq<Stmt>)
    requires 8 <= w <= 32 && Operand(arg1, 32, w, env) && Operand(arg2, 32, w, env)
    requires Exec(irout, env) == e && SameInputs(env, e) && HasResult(e, r) && r < Pow2(w)
    requires Get(e, CF) == Truth(Ev(arg1, env) < Ev(arg2, env))
    ensures X86FlagsOf(Exec(out, env)) == SubBitsSigned(w, Ev(arg1, env), Ev(arg2, env), 0, r)
  {
    ghost var e';
    out, e' := SetCommonFlags(irout, arg1, arg2, r, env, e);
    out, e' := SetSignFlagsSub(out, arg1, arg2, w, r, env, e');
  }

  // ----- with a carry in -----

  /** Recovering the operands that VEX passes: the carry is bit 0 of the third, and the
      second was xored with it. */
  function OldCarry(arg3: Exp): Exp { BinOp(BITAND, arg3, C32(1)) }

  function Recovered(arg2: Exp, arg3: Exp): Exp { Xor2(arg2, OldCarry(arg3)) }

  lemma {:induction false} EvOldCarry(arg3: Exp, env: Env)
    requires Operand(arg3, 32, 32, env)
    ensures Ev(OldCarry(arg3), env) == Ev(arg3, env) % 2
  {
    EvConstant(32, 1, env);
    EvAnd(arg3, C32(1), env);
    SmallPowers();
    Masked(Ev(arg3, env), 1);
  }

  lemma {:induction false} OldCarryTyped(arg3: Exp, env: Env)
    requires Operand(arg3, 32, 32, env)
    ensures Typed(OldCarry(arg3)) && Width(OldCarry(arg3)) == 32 && InputsOnly(OldCarry(arg3))
  {
    hide Pow2, Ev, EvBinOp;
    Pow2Mono(1, 32);
    SmallPowers();
    assert Typed(C32(1)) && InputsOnly(C32(1));
  }

  lemma {:induction false} EvRecovered(w: nat, arg2: Exp, arg3: Exp, b: nat, env: Env)
    requires 8 <= w <= 32 && Operand(arg2, 32, 32, env) && Operand(arg3, 32, 32, env) && b < Pow2(w)
    requires Ev(arg2, env) == Xor(b, Ev(arg3, env) % 2)
    ensures Ev(OldCarry(arg3), env) == Ev(arg3, env) % 2 && Operand(OldCarry(arg3), 32, 1, env)
    ensures Operand(Recovered(arg2, arg3), 32, w, env) && Ev(Recovered(arg2, arg3), env) == b
  {
    EvOldCarry(arg3, env);
    OldCarryTyped(arg3, env);
    SmallPowers();
    EvXor(arg2, OldCarry(arg3), env);
    XorTwice(b, Ev(arg3, env) % 2);
  }

  method ModEflagsAdc(w: nat, arg1: Exp, arg2: Exp, arg3: Exp, ghost b: nat, ghost env: Env) returns (irout: seq<Stmt>)
    requires 8 <= w <= 32 && Operand(arg1, 32, w, env) && Operand(arg2, 32, 32, env) && Operand(arg3, 32, 32, env)
    requires b < Pow2(w) && Ev(arg2, env) == Xor(b, Ev(arg3, env) % 2)
    ensures var a, c := Ev(arg1, env), Ev(arg3, env) % 2;
      X86FlagsOf(Exec(irout, env)) == AddFlags(w, a, b, c)
  {
    hide Ev, EvBinOp, EvUnOp, LowPart, Typed, Width, Pow2, X86FlagsOf, AddBits, SubBits, SubBitsSigned, AddFlags,
         SubFlags, Exec;
    var carry, addend := OldCarry(arg3), Recovered(arg2, arg3);
    EvRecovered(w, arg2, arg3, b, env);
    irout := EmitAdc(w, arg1, addend, carry, env);
    AddMeaning(X86FlagsOf(Exec(irout, env)), w, Ev(arg1, env), b, Ev(arg3, env) % 2);
  }

  /** From the recovered operands on. */
  method EmitAdc(w: nat, arg1: Exp, addend: Exp, carry: Exp, ghost env: Env) returns (irout: seq<Stmt>)
    requires 8 <= w <= 32 && Operand(arg1, 32, w, env) && Operand(addend, 32, w, env) && Operand(carry, 32, 1, env)
    ensures var a, b, c := Ev(arg1, env), Ev(addend, env), Ev(carry, env);
      X86FlagsOf(Exec(irout, env)) == AddBits(w, a, b, c, LowPart(a + b + c, w))
  {
    hide Ev, EvBinOp, EvUnOp, LowPart, Pow2, Width, Typed;
    ghost var x := Ev(arg1, env) + Ev(addend, env) + Ev(carry, env);
    ghost var r, e := LowPart(x, w), env;
    CarrySumComputes(arg1, addend, carry, w, env);
    irout, e := PushResult(BinOp(PLUS, BinOp(PLUS, arg1, addend), carry), w, x, env);
    irout := SetCarryAdd(irout, arg1, addend, carry, w, r, env, e);
  }

  method SetCarryAdd(irout: seq<Stmt>, arg1: Exp, arg2: Exp, carry: Exp, w: nat, ghost r: nat, ghost env: Env,
          ghost e: Env)
      returns (out: seq<Stmt>)
    requires 8 <= w <= 32 && Operand(arg1, 32, w, env) && Operand(arg2, 32, w, env) && Operand(carry, 32, 1, env)
    requires Exec(irout, env) == e && SameInputs(env, e) && HasResult(e, r) && r < Pow2(w)
    ensures X86FlagsOf(Exec(out, env)) == AddBits(w, Ev(arg1, env), Ev(arg2, env), Ev(carry, env), r)
  {
    SmallPowers();
    ghost var e';
    EvCondCFAdc(arg1, carry, r, env, e);
    out, e' := SetFlag(irout, CF, CondCFAdc(arg1, carry), env, e);
    out := FinishAdd(out, arg1, arg2, w, Ev(carry, env), r, env, e');
  }

  /** (carry == 1 && res <= arg1) || (carry == 0 && res < arg1) */
  function CondCFAdc(arg1: Exp, carry: Exp): Exp {
    BinOp(BITOR, BinOp(BITAND, BinOp(EQ, carry, C32(1)), BinOp(LE, RES, arg1)),
                 BinOp(BITAND, BinOp(EQ, carry, C32(0)), BinOp(LT, RES, arg1)))
  }

  /** (carry == 0 && arg1 < arg2) || (!(carry == 0) && arg1 <= arg2) */
  function CondCFSbb(arg1: Exp, arg2: Exp, carry: Exp): Exp {
    BinOp(BITOR, BinOp(BITAND, BinOp(EQ, carry, C32(0)), BinOp(LT, arg1, arg2)),
                 BinOp(BITAND, Not(BinOp(EQ, carry, C32(0))), BinOp(LE, arg1, arg2)))
  }

  lemma {:induction false} EvAndOr(p: Exp, q: Exp, u: Exp, v: Exp, env: Env, bp: bool, bq: bool, bu: bool, bv: bool)
    requires Ev(p, env) == Truth(bp) && Ev(q, env) == Truth(bq) && Ev(u, env) == Truth(bu) && Ev(v, env) == Truth(bv)
    ensures Ev(BinOp(BITOR, BinOp(BITAND, p, q), BinOp(BITAND, u, v)), env) == Truth((bp && bq) || (bu && bv))
  {
    TruthOps(bp, bq);
    TruthOps(bu, bv);
    TruthOps(bp && bq, bu && bv);
    EvAnd(p, q, env);
    EvAnd(u, v, env);
    EvOr(BinOp(BITAND, p, q), BinOp(BITAND, u, v), env);
  }

  lemma {:induction false} EvCondCFAdc(arg1: Exp, carry: Exp, r: nat, env: Env, e: Env)
    requires InputsOnly(arg1) && InputsOnly(carry) && SameInputs(env, e) && HasResult(e, r) && Ev(carry, env) <= 1
    ensures Ev(CondCFAdc(arg1, carry), e)
         == Truth(if Ev(carry, env) == 1 then r <= Ev(arg1, env) else r < Ev(arg1, env))
  {
    EvResult(e, r);
    InputsKeep(arg1, env, e);
    InputsKeep(carry, env, e);
    var c, a := Ev(carry, env), Ev(arg1, env);
    EvConstant(32, 1, e);
    EvConstant(32, 0, e);
    EvEqual(carry, C32(1), e);
    EvEqual(carry, C32(0), e);
    EvOrder(RES, arg1, e);
    EvAndOr(BinOp(EQ, carry, C32(1)), BinOp(LE, RES, arg1), BinOp(EQ, carry, C32(0)), BinOp(LT, RES, arg1), e,
            c == 1, r <= a, c == 0, r < a);
  }

  lemma {:induction false} EvCondCFSbb(arg1: Exp, arg2: Exp, carry: Exp, env: Env, e: Env)
    requires InputsOnly(arg1) && InputsOnly(arg2) && InputsOnly(carry) && SameInputs(env, e) && Ev(carry, env) <= 1
    ensures var a, b := Ev(arg1, env), Ev(arg2, env);
      Ev(CondCFSbb(arg1, arg2, carry), e) == Truth(if Ev(carry, env) == 1 then a <= b else a < b)
  {
    InputsKeep(arg1, env, e);
    InputsKeep(arg2, env, e);
    InputsKeep(carry, env, e);
    var c, a, b := Ev(carry, env), Ev(arg1, env), Ev(arg2, env);
    var zero := BinOp(EQ, carry, C32(0));
    EvConstant(32, 0, e);
    EvEqual(carry, C32(0), e);
    EvOrder(arg1, arg2, e);
    EvNotTruth(zero, e, c == 0);
    EvAndOr(zero, BinOp(LT, arg1, arg2), Not(zero), BinOp(LE, arg1, arg2), e, c == 0, a < b, c != 0, a <= b);
  }

  /** SF and OF as sbb computes them. */
  method SetSignFlagsSbb(irout: seq<Stmt>, arg1: Exp, arg2: Exp, w: nat, ghost r: nat, ghost env: Env, ghost e: Env)
      returns (out: seq<Stmt>, ghost e': Env)
    requires 8 <= w <= 32 && Operand(arg1, 32, w, env) && Operand(arg2, 32, w, env)
    requires Exec(irout, env) == e && SameInputs(env, e) && HasResult(e, r) && r < Pow2(w)
    ensures Exec(out, env) == e' && SameInputs(env, e')
    ensures Get(e', SF) == Truth(Negative(w, r))
    ensures var a, b := Negative(w, Ev(arg1, env)), Negative(w, Ev(arg2, env));
      Get(e', OF) == Truth(a != b && a != Negative(w, r))
    ensures forall g :: g != SF && g != OF ==> Get(e', g) == Get(e, g)
  {
    hide Ev, EvBinOp, EvUnOp, LowPart, Pow2, Xor, And, Or;
    EvBitTest(RES, w - 1, e);
    EvResult(e, r);
    SignIsTopBit(w, r);
    out, e' := SetFlag(irout, SF, BitTest(RES, w - 1), env, e);
    EvCondOFSbb(arg1, arg2, w, e');
    EvResult(e', r);
    InputsKeep(arg1, env, e');
    InputsKeep(arg2, env, e');
    SignIsTopBit(w, Ev(arg1, env));
    SignIsTopBit(w, Ev(arg2, env));
    out, e' := SetFlag(out, OF, CondOFSbb(arg1, arg2, w), env, e');
  }

  method ModEflagsSbb(w: nat, arg1: Exp, arg2: Exp, arg3: Exp, ghost b: nat, ghost env: Env) returns (irout: seq<Stmt>)
    requires 8 <= w <= 32 && Operand(arg1, 32, w, env) && Operand(arg2, 32, 32, env) && Operand(arg3, 32, 32, env)
    requires b < Pow2(w) && Ev(arg2, env) == Xor(b, Ev(arg3, env) % 2)
    ensures var a, c := Ev(arg1, env), Ev(arg3, env) % 2;
      X86FlagsOf(Exec(irout, env)) == SubFlags(w, a, b, c)
  {
    hide Ev, EvBinOp, EvUnOp, LowPart, Typed, Width, Pow2, X86FlagsOf, AddBits, SubBits, SubBitsSigned, AddFlags,
         SubFlags, Exec;
    var borrow, subtrahend := OldCarry(arg3), Recovered(arg2, arg3);
    EvRecovered(w, arg2, arg3, b, env);
    irout := EmitSbb(w, arg1, subtrahend, borrow, env);
    SubMeaning(X86FlagsOf(Exec(irout, env)), w, Ev(arg1, env), b, Ev(arg3, env) % 2);
  }

  method EmitSbb(w: nat, arg1: Exp, subtrahend: Exp, borrow: Exp, ghost env: Env) returns (irout: seq<Stmt>)
    requires 8 <= w <= 32 && Operand(arg1, 32, w, env) && Operand(subtrahend, 32, w, env) && Operand(borrow, 32, 1, env)
    ensures var a, b, c := Ev(arg1, env), Ev(subtrahend, env), Ev(borrow, env);
      X86FlagsOf(Exec(irout, env)) == SubBits(w, a, b, c, LowPart(a - b - c, w))
  {
    hide Ev, EvBinOp, EvUnOp, LowPart, Pow2, Width, Typed;
    ghost var x := Ev(arg1, env) - Ev(subtrahend, env) - Ev(borrow, env);
    ghost var r, e := LowPart(x, w), env;
    BorrowComputes(arg1, subtrahend, borrow, w, env);
    irout, e := PushResult(BinOp(MINUS, BinOp(MINUS, arg1, subtrahend), borrow), w, x, env);
    irout := SetCarrySbb(irout, arg1, subtrahend, borrow, w, r, env, e);
  }

  method SetCarrySbb(irout: seq<Stmt>, arg1: Exp, arg2: Exp, borrow: Exp, w: nat, ghost r: nat, ghost env: Env,
          ghost e: Env)
      returns (out: seq<Stmt>)
    requires 8 <= w <= 32 && Operand(arg1, 32, w, env) && Operand(arg2, 32, w, env) && Operand(borrow, 32, 1, env)
    requires Exec(irout, env) == e && SameInputs(env, e) && HasResult(e, r) && r < Pow2(w)
    ensures X86FlagsOf(Exec(out, env)) == SubBits(w, Ev(arg1, env), Ev(arg2, env), Ev(borrow, env), r)
  {
    SmallPowers();
    ghost var e';
    EvCondCFSbb(arg1, arg2, borrow, env, e);
    out, e' := SetFlag(irout, CF, CondCFSbb(arg1, arg2, borrow), env, e);
    out := FinishSbb(out, arg1, arg2, w, Ev(borrow, env), r, env, e');
  }

  method FinishSbb(irout: seq<Stmt>, arg1: Exp, arg2: Exp, w: nat, ghost c: nat, ghost r: nat, ghost env: Env,
          ghost e: Env)
      returns (out: seq<Stmt>)
    requires 8 <= w <= 32 && Operand(arg1, 32, w, env) && Operand(arg2, 32, w, env)
    requires Exec(irout, env) == e && SameInputs(env, e) && HasResult(e, r) && r < Pow2(w)
    requires Get(e, CF) == Truth(if c == 1 then Ev(arg1, env) <= Ev(arg2, env) else Ev(arg1, env) < Ev(arg2, env))
    ensures X86FlagsOf(Exec(out, env)) == SubBits(w, Ev(arg1, env), Ev(arg2, env), c, r)
  {
    ghost var e';
    out, e' := SetCommonFlags(irout, arg1, arg2, r, env, e);
    out, e' := SetSignFlagsSbb(out, arg1, arg2, w, r, env, e');
  }
}
