/** The rflags of additions and subtractions in libasmir/src/vex/irtoir-x64.cpp
    (x64_modify_flags), for operands of 8 to 64 bits in 64-bit words. */
module X64Flags {
  import opened Arith
  import opened Powers
  import opened Bits
  import opened FlagExprs
  import opened FlagMath
  import opened FlagFormulas

  const RESULT_W := Temp(Local(0), 64)
  const RES_SIGN := Temp(Local(2), 1)

  function Result(w: nat): Exp { Temp(Local(1), w) }

  function Narrow64(e: Exp, w: nat): Exp { if w == 64 then e else Cast(e, w, CAST_LOW) }

  function SignBitOf(e: Exp, w: nat): Exp { HighBit(Narrow64(e, w)) }

  lemma {:induction false} EvNarrow64(e: Exp, w: nat, env: Env)
    requires 1 <= w <= 64 && Typed(e) && Width(e) == 64
    ensures var n := Narrow64(e, w); Typed(n) && Width(n) == w && Ev(n, env) == LowPart(Ev(e, env), w)
  {
    hide Ev, EvBinOp, EvUnOp, LowPart, Pow2;
    EvFits(e, env);
    EvCast(e, w, env);
    if w == 64 { LowPartSmall(Ev(e, env), w); }
  }

  lemma {:induction false} EvSignBitOf(e: Exp, w: nat, env: Env)
    requires 1 <= w <= 64 && Typed(e) && Width(e) == 64
    ensures Ev(SignBitOf(e, w), env) == Truth(Negative(w, LowPart(Ev(e, env), w)))
  {
    hide Ev, EvBinOp, EvUnOp, LowPart, Pow2;
    EvNarrow64(e, w, env);
    EvHighBit(Narrow64(e, w), env);
  }

  // ----- assigning the flags -----

  /** The formulas for the six flags. */
  datatype Formulas = Formulas(cf: Exp, pf: Exp, af: Exp, zf: Exp, sf: Exp, of: Exp)

  function Computed(x: Formulas, e: Env): X86 {
    X86(Ev(x.cf, e) == 1, Ev(x.pf, e) == 1, Ev(x.af, e) == 1, Ev(x.zf, e) == 1, Ev(x.sf, e) == 1, Ev(x.of, e) == 1)
  }

  predicate AllFlagFree(x: Formulas) {
    FlagFree(x.cf) && FlagFree(x.pf) && FlagFree(x.af) && FlagFree(x.zf) && FlagFree(x.sf) && FlagFree(x.of)
  }

  predicate AllBits(x: Formulas, e: Env) {
    && Ev(x.cf, e) <= 1 && Ev(x.pf, e) <= 1 && Ev(x.af, e) <= 1
    && Ev(x.zf, e) <= 1 && Ev(x.sf, e) <= 1 && Ev(x.of, e) <= 1
  }

  /** The end of x64_modify_flags: all formulas take effect as if at once, or none
      when the thunk is conditional and its condition fails. */
  method AssignFlags(newIr: seq<Stmt>, x: Formulas, conditional: bool, cond: Exp, ghost env: Env, ghost e0: Env)
      returns (out: seq<Stmt>)
    requires Exec(newIr, env) == e0 && SameInputs(env, e0)
    requires AllFlagFree(x) && FlagFree(cond) && AllBits(x, e0)
    ensures X86FlagsOf(Exec(out, env)) ==
      if conditional && Ev(cond, e0) == 0 then X86FlagsOf(e0) else Computed(x, e0)
  {
    hide Ev, EvBinOp, EvUnOp, LowPart, Pow2, Negative, Bit, Xor, Exec, FlagFree, SameInputs, SameOthers, Typed;
    ghost var e;
    out, e := AssignFlag(newIr, CF, x.cf, conditional, cond, env, e0, e0);
    out, e := AssignFlag(out, PF, x.pf, conditional, cond, env, e0, e);
    out, e := AssignFlag(out, AF, x.af, conditional, cond, env, e0, e);
    out := AssignLast(out, x, conditional, cond, env, e0, e);
  }

  method AssignLast(newIr: seq<Stmt>, x: Formulas, conditional: bool, cond: Exp, ghost env: Env, ghost e0: Env,
          ghost e: Env)
      returns (out: seq<Stmt>)
    requires Exec(newIr, env) == e && SameInputs(env, e) && SameOthers(e0, e)
    requires AllFlagFree(x) && FlagFree(cond) && AllBits(x, e0)
    ensures X86FlagsOf(Exec(out, env)) == X86FlagsOf(e).(
      zf := if conditional && Ev(cond, e0) == 0 then Get(e, ZF) == 1 else Ev(x.zf, e0) == 1,
      sf := if conditional && Ev(cond, e0) == 0 then Get(e, SF) == 1 else Ev(x.sf, e0) == 1,
      of := if conditional && Ev(cond, e0) == 0 then Get(e, OF) == 1 else Ev(x.of, e0) == 1)
  {
    hide Ev, EvBinOp, EvUnOp, LowPart, Pow2, Negative, Bit, Xor, Exec, FlagFree, SameInputs, SameOthers;
    ghost var e';
    out, e' := AssignFlag(newIr, ZF, x.zf, conditional, cond, env, e0, e);
    out, e' := AssignFlag(out, SF, x.sf, conditional, cond, env, e0, e');
    out, e' := AssignFlag(out, OF, x.of, conditional, cond, env, e0, e');
  }

  // ----- the formulas -----

  /** af: bit 4 of result ^ dep1 ^ dep2, on the wide result. */
  function AfFormula(dep1: Exp, dep2: Exp): Exp { GetBit(Xor3(RESULT_W, dep1, dep2), 4) }

  function ZfFormula(w: nat): Exp { BinOp(EQ, Result(w), Constant(w, 0)) }

  function AddFormulas(dep1: Exp, dep2: Exp, w: nat): Formulas {
    Formulas(
      BinOp(LT, Result(w), Narrow64(dep1, w)),
      Parity8(Result(w)), AfFormula(dep1, dep2), ZfFormula(w), RES_SIGN,
      AddOf(dep1, dep2, w))
  }

  function SubFormulas(dep1: Exp, dep2: Exp, w: nat): Formulas {
    Formulas(
      BinOp(LT, dep1, dep2),
      Parity8(Result(w)), AfFormula(dep1, dep2), ZfFormula(w), HighBit(Result(w)),
      Xor2(HighBit(Result(w)), BinOp(SLT, Narrow64(dep1, w), Narrow64(dep2, w))))
  }

  /** The temporaries after the result has been computed: the wide result, the narrow
      one, and its sign. */
  ghost predicate HasResults(e: Env, env: Env, w: nat, x: int) {
    && SameInputs(env, e)
    && Local(0) in e && e[Local(0)] == LowPart(x, 64)
    && Local(1) in e && e[Local(1)] == LowPart(x, w)
    && Local(2) in e && 1 <= w && e[Local(2)] == Truth(Negative(w, LowPart(x, w)))
  }

  lemma {:induction false} EvResults(e: Env, env: Env, w: nat, x: int)
    requires w >= 1 && HasResults(e, env, w, x)
    ensures Ev(RESULT_W, e) == LowPart(x, 64) && Ev(Result(w), e) == LowPart(x, w)
    ensures Ev(RES_SIGN, e) == Truth(Negative(w, LowPart(x, w)))
    ensures Ev(HighBit(Result(w)), e) == Truth(Negative(w, LowPart(x, w)))
  {
    hide Ev, EvBinOp, EvUnOp, LowPart, Pow2;
    LowPartFits(x, 64);
    LowPartFits(x, w);
    SmallPowers();
    EvLocal(0, 64, e, LowPart(x, 64));
    EvLocal(1, w, e, LowPart(x, w));
    EvLocal(2, 1, e, Truth(Negative(w, LowPart(x, w))));
    EvHighBit(Result(w), e);
  }

  /** The first moves of every case. */
  method PushResults(newIr: seq<Stmt>, expr: Exp, w: nat, ghost x: int, ghost env: Env, ghost e0: Env)
      returns (out: seq<Stmt>, ghost e: Env)
    requires 8 <= w <= 64 && Exec(newIr, env) == e0 && SameInputs(env, e0)
    requires Typed(expr) && Width(expr) == 64 && Ev(expr, e0) == LowPart(x, 64)
    ensures Exec(out, env) == e && HasResults(e, env, w, x)
    ensures X86FlagsOf(e) == X86FlagsOf(e0) && (forall n: nat :: n > 2 ==> SameVar(Local(n), e0, e))
  {
    hide Ev, EvBinOp, EvUnOp, LowPart, Pow2, Negative, X86FlagsOf, Exec;
    ghost var e1, e2;
    out, e1 := Push(newIr, Local(0), expr, env, e0);
    LowPartFits(x, 64);
    LowPartFits(x, w);
    EvLocal(0, 64, e1, LowPart(x, 64));
    EvNarrow64(RESULT_W, w, e1);
    LowTwice(x, w, 64);
    out, e2 := Push(out, Local(1), Narrow64(RESULT_W, w), env, e1);
    EvLocal(1, w, e2, LowPart(x, w));
    EvHighBit(Result(w), e2);
    out, e := Push(out, Local(2), HighBit(Result(w)), env, e2);
    LocalKeepsFlags(e0, Local(0), e1[Local(0)]);
    LocalKeepsFlags(e1, Local(1), e2[Local(1)]);
    LocalKeepsFlags(e2, Local(2), e[Local(2)]);
  }

  lemma {:induction false} WidePlus(a: Exp, b: Exp, env: Env, x: int, y: int)
    requires Typed(a) && Typed(b) && Width(a) == 64 && Width(b) == 64
    requires x == Ev(a, env) + Ev(b, env) && y == Ev(a, env) - Ev(b, env)
    ensures Typed(BinOp(PLUS, a, b)) && Width(BinOp(PLUS, a, b)) == 64 && Ev(BinOp(PLUS, a, b), env) == LowPart(x, 64)
    ensures Typed(BinOp(MINUS, a, b)) && Width(BinOp(MINUS, a, b)) == 64
      && Ev(BinOp(MINUS, a, b), env) == LowPart(y, 64)
  {
    hide Ev, EvBinOp, EvUnOp, LowPart, Pow2;
    EvPlus(a, b, env);
    EvMinus(a, b, env);
  }

  predicate SameVar(v: Var, e: Env, e': Env) {
    (v in e <==> v in e') && (v in e ==> e[v] == e'[v])
  }

  lemma {:induction false} LocalKeepsFlags(e: Env, v: Var, x: nat)
    requires v.Local?
    ensures X86FlagsOf(e[v := x]) == X86FlagsOf(e)
  {
  }

  /** The auxiliary carry does not depend on how far the result is truncated. */
  lemma {:induction false} WideAuxiliary(x: int, w: nat, y: nat)
    requires 5 <= w <= 64
    ensures Bit(Xor(LowPart(x, 64), y), 4) == Bit(Xor(LowPart(x, w), y), 4)
  {
    hide LowPart, Pow2, Bit, Xor;
    LowPartIs(x, w);
    LowPartIs(x, 64);
    XorBit(LowPart(x, 64), y, 4);
    XorBit(LowPart(x, w), y, 4);
    LowBitsOfSum(x, w);
    LowBitsOfSum(x, 64);
    BitFour(LowPart(x, w));
    BitFour(LowPart(x, 64));
  }

  lemma {:induction false} EvCommon(dep1: Exp, dep2: Exp, w: nat, x: int, env: Env, e: Env)
    requires 8 <= w <= 64 && HasResults(e, env, w, x) && InputsOnly(dep1) && InputsOnly(dep2)
    ensures Ev(Parity8(Result(w)), e) == Truth(EvenParity(LowPart(x, w)))
    ensures Ev(ZfFormula(w), e) == Truth(LowPart(x, w) == 0)
    ensures Ev(AfFormula(dep1, dep2), e) == Bit(Xor(LowPart(x, w), Xor(Ev(dep1, env), Ev(dep2, env))), 4)
  {
    hide Ev, EvBinOp, EvUnOp, LowPart, Pow2;
    EvResults(e, env, w, x);
    EvParity8(Result(w), e);
    InputsKeep(dep1, env, e);
    InputsKeep(dep2, env, e);
    EvConstant(w, 0, e);
    EvEqual(Result(w), Constant(w, 0), e);
    EvXor3(RESULT_W, dep1, dep2, e);
    EvGetBit(Xor3(RESULT_W, dep1, dep2), 4, e);
    WideAuxiliary(x, w, Xor(Ev(dep1, env), Ev(dep2, env)));
  }

  lemma {:induction false} EvSigns(dep: Exp, w: nat, env: Env, e: Env)
    requires 1 <= w <= 64 && Operand(dep, 64, w, env) && SameInputs(env, e)
    ensures Ev(Narrow64(dep, w), e) == Ev(dep, env) && Width(Narrow64(dep, w)) == w
    ensures Ev(SignBitOf(dep, w), e) == Truth(Negative(w, Ev(dep, env)))
  {
    hide Ev, EvBinOp, EvUnOp, LowPart, Pow2;
    InputsKeep(dep, env, e);
    EvNarrow64(dep, w, e);
    EvSignBitOf(dep, w, e);
    LowPartSmall(Ev(dep, env), w);
  }

  /** of of an addition: the result's sign differs from both operands' signs. */
  function AddOf(dep1: Exp, dep2: Exp, w: nat): Exp {
    BinOp(BITAND, Xor2(RES_SIGN, SignBitOf(dep1, w)), Xor2(RES_SIGN, SignBitOf(dep2, w)))
  }

  lemma {:induction false} EvAddOf(dep1: Exp, dep2: Exp, w: nat, x: int, env: Env, e: Env)
    requires 8 <= w <= 64 && Operand(dep1, 64, w, env) && Operand(dep2, 64, w, env) && HasResults(e, env, w, x)
    ensures var a, b, r := Negative(w, Ev(dep1, env)), Negative(w, Ev(dep2, env)), Negative(w, LowPart(x, w));
      Ev(AddOf(dep1, dep2, w), e) == Truth(a == b && a != r)
  {
    hide Ev, EvBinOp, EvUnOp, LowPart, Pow2;
    var a, b, r := Negative(w, Ev(dep1, env)), Negative(w, Ev(dep2, env)), Negative(w, LowPart(x, w));
    EvResults(e, env, w, x);
    EvSigns(dep1, w, env, e);
    EvSigns(dep2, w, env, e);
    TruthOps(r, a);
    TruthOps(r, b);
    TruthOps(r != a, r != b);
    EvXor(RES_SIGN, SignBitOf(dep1, w), e);
    EvXor(RES_SIGN, SignBitOf(dep2, w), e);
    EvAnd(Xor2(RES_SIGN, SignBitOf(dep1, w)), Xor2(RES_SIGN, SignBitOf(dep2, w)), e);
  }

  lemma {:induction false} EvAddCf(dep1: Exp, w: nat, x: int, env: Env, e: Env)
    requires 8 <= w <= 64 && Operand(dep1, 64, w, env) && HasResults(e, env, w, x)
    ensures Ev(BinOp(LT, Result(w), Narrow64(dep1, w)), e) == Truth(LowPart(x, w) < Ev(dep1, env))
  {
    hide Ev, EvBinOp, EvUnOp, LowPart, Pow2;
    EvResults(e, env, w, x);
    EvSigns(dep1, w, env, e);
    EvOrder(Result(w), Narrow64(dep1, w), e);
  }

  lemma {:induction false} EvAddFormulas(dep1: Exp, dep2: Exp, w: nat, x: int, env: Env, e: Env)
    requires 8 <= w <= 64 && Operand(dep1, 64, w, env) && Operand(dep2, 64, w, env) && HasResults(e, env, w, x)
    ensures Computed(AddFormulas(dep1, dep2, w), e) == AddBits(w, Ev(dep1, env), Ev(dep2, env), 0, LowPart(x, w))
    ensures AllBits(AddFormulas(dep1, dep2, w), e)
  {
    hide Ev, EvBinOp, EvUnOp, LowPart, Pow2;
    EvResults(e, env, w, x);
    EvCommon(dep1, dep2, w, x, env, e);
    EvAddCf(dep1, w, x, env, e);
    EvAddOf(dep1, dep2, w, x, env, e);
  }

  lemma {:induction false} EvSubOf(dep1: Exp, dep2: Exp, w: nat, x: int, env: Env, e: Env)
    requires 8 <= w <= 64 && Operand(dep1, 64, w, env) && Operand(dep2, 64, w, env) && HasResults(e, env, w, x)
    ensures Ev(Xor2(HighBit(Result(w)), BinOp(SLT, Narrow64(dep1, w), Narrow64(dep2, w))), e)
         == Truth(Negative(w, LowPart(x, w)) != (Signed(w, Ev(dep1, env)) < Signed(w, Ev(dep2, env))))
  {
    hide Ev, EvBinOp, EvUnOp, LowPart, Pow2;
    EvResults(e, env, w, x);
    EvSigns(dep1, w, env, e);
    EvSigns(dep2, w, env, e);
    var less := BinOp(SLT, Narrow64(dep1, w), Narrow64(dep2, w));
    EvSigned(Narrow64(dep1, w), Narrow64(dep2, w), e, w);
    TruthOps(Negative(w, LowPart(x, w)), Signed(w, Ev(dep1, env)) < Signed(w, Ev(dep2, env)));
    EvXor(HighBit(Result(w)), less, e);
  }

  lemma {:induction false} EvSubCfSf(dep1: Exp, dep2: Exp, w: nat, x: int, env: Env, e: Env)
    requires 8 <= w <= 64 && Operand(dep1, 64, w, env) && Operand(dep2, 64, w, env) && HasResults(e, env, w, x)
    ensures Ev(BinOp(LT, dep1, dep2), e) == Truth(Ev(dep1, env) < Ev(dep2, env))
    ensures Ev(HighBit(Result(w)), e) == Truth(Negative(w, LowPart(x, w)))
  {
    hide Ev, EvBinOp, EvUnOp, LowPart, Pow2;
    EvResults(e, env, w, x);
    InputsKeep(dep1, env, e);
    InputsKeep(dep2, env, e);
    EvOrder(dep1, dep2, e);
  }

  lemma {:induction false} EvSubFormulas(dep1: Exp, dep2: Exp, w: nat, x: int, env: Env, e: Env)
    requires 8 <= w <= 64 && Operand(dep1, 64, w, env) && Operand(dep2, 64, w, env) && HasResults(e, env, w, x)
    ensures Computed(SubFormulas(dep1, dep2, w), e) == SubBitsSigned(w, Ev(dep1, env), Ev(dep2, env), 0, LowPart(x, w))
    ensures AllBits(SubFormulas(dep1, dep2, w), e)
  {
    hide Ev, EvBinOp, EvUnOp, LowPart, Pow2;
    EvCommon(dep1, dep2, w, x, env, e);
    EvSubCfSf(dep1, dep2, w, x, env, e);
    EvSubOf(dep1, dep2, w, x, env, e);
  }

  lemma {:induction false} ShrFree(e: Exp, k: nat)
    requires FlagFree(e)
    ensures FlagFree(Shr(e, k))
  {
    assert FlagFree(C32(k));
  }

  lemma {:induction false} Xor4Free(a: Exp, b: Exp, c: Exp, d: Exp)
    requires FlagFree(a) && FlagFree(b) && FlagFree(c) && FlagFree(d)
    ensures FlagFree(Xor2(Xor2(a, b), Xor2(c, d)))
  {
    assert FlagFree(Xor2(a, b)) && FlagFree(Xor2(c, d));
  }

  lemma {:induction false} ParityFree(e: Exp)
    requires FlagFree(e)
    ensures FlagFree(Parity8(e))
  {
    ShrFree(e, 7);
    ShrFree(e, 6);
    ShrFree(e, 5);
    ShrFree(e, 4);
    ShrFree(e, 3);
    ShrFree(e, 2);
    ShrFree(e, 1);
    Xor4Free(Shr(e, 7), Shr(e, 6), Shr(e, 5), Shr(e, 4));
    Xor4Free(Shr(e, 3), Shr(e, 2), Shr(e, 1), e);
    var x := Xor8(Shr(e, 7), Shr(e, 6), Shr(e, 5), Shr(e, 4), Shr(e, 3), Shr(e, 2), Shr(e, 1), e);
    assert FlagFree(x);
    assert FlagFree(Cast(x, 1, CAST_LOW));
  }

  lemma {:induction false} AfFree(dep1: Exp, dep2: Exp)
    requires FlagFree(dep1) && FlagFree(dep2)
    ensures FlagFree(AfFormula(dep1, dep2))
  {
    assert FlagFree(Xor2(dep1, dep2));
    ShrFree(Xor3(RESULT_W, dep1, dep2), 4);
  }

  lemma {:induction false} FormulasFree(dep1: Exp, dep2: Exp, w: nat)
    requires InputsOnly(dep1) && InputsOnly(dep2)
    ensures AllFlagFree(AddFormulas(dep1, dep2, w)) && AllFlagFree(SubFormulas(dep1, dep2, w))
  {
    InputsAreFlagFree(dep1);
    InputsAreFlagFree(dep2);
    ParityFree(Result(w));
    AfFree(dep1, dep2);
    SignFree(dep1, w);
    SignFree(dep2, w);
    SignFree(Result(w), w);
    BinOpFree(XOR, RES_SIGN, SignBitOf(dep1, w));
    BinOpFree(XOR, RES_SIGN, SignBitOf(dep2, w));
    BinOpFree(SLT, Narrow64(dep1, w), Narrow64(dep2, w));
  }

  lemma {:induction false} SignFree(e: Exp, w: nat)
    requires FlagFree(e)
    ensures FlagFree(Narrow64(e, w)) && FlagFree(SignBitOf(e, w)) && FlagFree(HighBit(e))
  {
  }

  /** The assignments at the end, when the formulas compute the flags f. */
  method Finish(newIr: seq<Stmt>, x: Formulas, conditional: bool, cond: Exp, ghost f: X86, ghost env: Env, ghost e: Env)
      returns (out: seq<Stmt>)
    requires Exec(newIr, env) == e && SameInputs(env, e) && X86FlagsOf(e) == X86FlagsOf(env)
    requires AllFlagFree(x) && AllBits(x, e) && Computed(x, e) == f && InputsOnly(cond)
    ensures X86FlagsOf(Exec(out, env)) == if conditional && Ev(cond, env) == 0 then X86FlagsOf(env) else f
  {
    InputsAreFlagFree(cond);
    InputsKeep(cond, env, e);
    out := AssignFlags(newIr, x, conditional, cond, env, e);
  }

  /** CC_OP_ADDB to CC_OP_ADDQ: zero-extended operands of w bits. */
  method ModifyFlagsAdd(w: nat, dep1: Exp, dep2: Exp, conditional: bool, cond: Exp, ghost env: Env)
      returns (newIr: seq<Stmt>)
    requires 8 <= w <= 64 && Operand(dep1, 64, w, env) && Operand(dep2, 64, w, env) && InputsOnly(cond)
    ensures X86FlagsOf(Exec(newIr, env)) ==
      if conditional && Ev(cond, env) == 0 then X86FlagsOf(env) else AddFlags(w, Ev(dep1, env), Ev(dep2, env), 0)
  {
    hide Ev, EvBinOp, EvUnOp, LowPart, Pow2, Negative, Typed, Width, AllBits, AllFlagFree, Arithmetic, AddBits,
         SubBits, SubBitsSigned, AddFlags, SubFlags;
    ghost var x := Ev(dep1, env) + Ev(dep2, env) + 0;
    ghost var e;
    WidePlus(dep1, dep2, env, x, Ev(dep1, env) - Ev(dep2, env));
    newIr, e := PushResults([], BinOp(PLUS, dep1, dep2), w, x, env, env);
    var f := AddFormulas(dep1, dep2, w);
    EvAddFormulas(dep1, dep2, w, x, env, e);
    FormulasFree(dep1, dep2, w);
    AddMeaning(Computed(f, e), w, Ev(dep1, env), Ev(dep2, env), 0);
    newIr := Finish(newIr, f, conditional, cond, Computed(f, e), env, e);
  }

  method ModifyFlagsSub(w: nat, dep1: Exp, dep2: Exp, conditional: bool, cond: Exp, ghost env: Env)
      returns (newIr: seq<Stmt>)
    requires 8 <= w <= 64 && Operand(dep1, 64, w, env) && Operand(dep2, 64, w, env) && InputsOnly(cond)
    ensures X86FlagsOf(Exec(newIr, env)) ==
      if conditional && Ev(cond, env) == 0 then X86FlagsOf(env) else SubFlags(w, Ev(dep1, env), Ev(dep2, env), 0)
  {
    hide Ev, EvBinOp, EvUnOp, LowPart, Pow2, Negative, Typed, Width, AllBits, AllFlagFree, Arithmetic, AddBits,
         SubBits, SubBitsSigned, AddFlags, SubFlags;
    ghost var x := Ev(dep1, env) - Ev(dep2, env) - 0;
    ghost var e;
    WidePlus(dep1, dep2, env, Ev(dep1, env) + Ev(dep2, env), x);
    newIr, e := PushResults([], BinOp(MINUS, dep1, dep2), w, x, env, env);
    var f := SubFormulas(dep1, dep2, w);
    EvSubFormulas(dep1, dep2, w, x, env, e);
    FormulasFree(dep1, dep2, w);
    SubMeaningSigned(Computed(f, e), w, Ev(dep1, env), Ev(dep2, env), 0);
    newIr := Finish(newIr, f, conditional, cond, Computed(f, e), env, e);
  }

  // ----- with a carry in -----

  const ARG2_W := Temp(Local(3), 64)

  function Arg1(w: nat): Exp { Temp(Local(4), w) }

  function Arg2(w: nat): Exp { Temp(Local(5), w) }

  const ARG1_SIGN := Temp(Local(6), 1)

  /** VEX passes the second operand xored with the carry. */
  ghost predicate XoredOperand(dep2: Exp, ndep: Exp, w: nat, b: nat, env: Env) {
    && Operand(dep2, 64, w, env) && Operand(ndep, 64, 1, env) && b < Pow2(w)
    && Ev(dep2, env) == Xor(b, Ev(ndep, env))
  }

  /** Neither the sign nor bit 4 notices the xor with a carry. */
  lemma {:induction false} XorWithCarry(w: nat, b: nat, c: nat, y: nat, r: nat)
    requires w >= 2 && b < Pow2(w) && c <= 1 && Xor(b, c) < Pow2(w)
    ensures Negative(w, Xor(b, c)) == Negative(w, b)
    ensures Bit(Xor(r, Xor(y, Xor(b, c))), 4) == Bit(Xor(r, Xor(y, b)), 4)
  {
    hide Pow2, Bit, Xor;
    SmallPowers();
    Pow2Mono(1, w - 1);
    Pow2Mono(1, 4);
    AboveTop(c, w - 1);
    AboveTop(c, 4);
    XorBit(b, c, w - 1);
    SignIsTopBit(w, b);
    SignIsTopBit(w, Xor(b, c));
    XorBit(b, c, 4);
    XorBit(y, Xor(b, c), 4);
    XorBit(y, b, 4);
    XorBit(r, Xor(y, Xor(b, c)), 4);
    XorBit(r, Xor(y, b), 4);
  }

  /** The temporaries that the two cases add. */
  ghost predicate HasCarryTemps(e: Env, env: Env, w: nat, a: nat, b: nat) {
    && SameInputs(env, e) && w >= 1
    && Local(3) in e && e[Local(3)] == b
    && Local(4) in e && e[Local(4)] == a
    && Local(5) in e && e[Local(5)] == b
    && Local(6) in e && e[Local(6)] == Truth(Negative(w, a))
  }

  /** arg2_w, arg1, arg2 and arg1_sign. */
  method PushCarryTemps(dep1: Exp, dep2: Exp, ndep: Exp, w: nat, ghost b: nat, ghost env: Env)
      returns (out: seq<Stmt>, ghost e: Env)
    requires 8 <= w <= 64 && Operand(dep1, 64, w, env) && XoredOperand(dep2, ndep, w, b, env)
    ensures Exec(out, env) == e && HasCarryTemps(e, env, w, Ev(dep1, env), b) && X86FlagsOf(e) == X86FlagsOf(env)
  {
    hide Ev, EvBinOp, EvUnOp, LowPart, Pow2, Negative, X86FlagsOf, Xor;
    ghost var e1;
    XorTwice(b, Ev(ndep, env));
    EvXor(dep2, ndep, env);
    out, e1 := Push([], Local(3), Xor2(dep2, ndep), env, env);
    LocalKeepsFlags(env, Local(3), b);
    out, e := PushNarrowed(out, dep1, w, b, env, e1);
  }

  method PushNarrowed(newIr: seq<Stmt>, dep1: Exp, w: nat, ghost b: nat, ghost env: Env, ghost e1: Env)
      returns (out: seq<Stmt>, ghost e: Env)
    requires 8 <= w <= 64 && Operand(dep1, 64, w, env) && b < Pow2(w)
    requires Exec(newIr, env) == e1 && SameInputs(env, e1) && Local(3) in e1 && e1[Local(3)] == b
    ensures Exec(out, env) == e && HasCarryTemps(e, env, w, Ev(dep1, env), b) && X86FlagsOf(e) == X86FlagsOf(e1)
  {
    hide Ev, EvBinOp, EvUnOp, LowPart, Pow2, Negative, X86FlagsOf, Exec, SameInputs, InputsOnly;
    ghost var e2, e3, a := e1, e1, Ev(dep1, env);
    EvSigns(dep1, w, env, e1);
    out, e2 := Push(newIr, Local(4), Narrow64(dep1, w), env, e1);
    Pow2Mono(w, 64);
    EvLocal(3, 64, e2, b);
    EvNarrow64(ARG2_W, w, e2);
    LowPartSmall(b, w);
    out, e3 := Push(out, Local(5), Narrow64(ARG2_W, w), env, e2);
    EvLocal(4, w, e3, a);
    EvHighBit(Arg1(w), e3);
    out, e := Push(out, Local(6), HighBit(Arg1(w)), env, e3);
    LocalKeepsFlags(e1, Local(4), a);
    LocalKeepsFlags(e2, Local(5), b);
    LocalKeepsFlags(e3, Local(6), e[Local(6)]);
  }

  lemma {:induction false} EvCarryTemps(e: Env, env: Env, w: nat, a: nat, b: nat)
    requires 1 <= w <= 64 && HasCarryTemps(e, env, w, a, b) && a < Pow2(w) && b < Pow2(w)
    ensures Ev(ARG2_W, e) == b && Ev(Arg1(w), e) == a && Ev(Arg2(w), e) == b
    ensures Ev(ARG1_SIGN, e) == Truth(Negative(w, a))
  {
    hide Ev, EvBinOp, EvUnOp, LowPart, Pow2;
    Pow2Mono(w, 64);
    SmallPowers();
    EvLocal(3, 64, e, b);
    EvLocal(4, w, e, a);
    EvLocal(5, w, e, b);
    EvLocal(6, 1, e, Truth(Negative(w, a)));
  }

  function AdcFormulas(dep1: Exp, dep2: Exp, ndep: Exp, w: nat): Formulas {
    Formulas(
      Ite(Cast(ndep, 1, CAST_LOW), BinOp(LE, Result(w), Arg1(w)), BinOp(LT, Result(w), Arg1(w))),
      Parity8(Result(w)), AfFormula(dep1, dep2), ZfFormula(w), RES_SIGN,
      BinOp(BITAND, BinOp(EQ, ARG1_SIGN, SignBitOf(dep2, w)), BinOp(NEQ, ARG1_SIGN, RES_SIGN)))
  }

  function SbbFormulas(dep1: Exp, dep2: Exp, ndep: Exp, w: nat): Formulas {
    Formulas(
      Ite(Cast(ndep, 1, CAST_LOW), BinOp(LE, Arg1(w), Arg2(w)), BinOp(LT, Arg1(w), Arg2(w))),
      Parity8(Result(w)), AfFormula(dep1, dep2), ZfFormula(w), RES_SIGN,
      Xor2(RES_SIGN, Ite(Cast(ndep, 1, CAST_LOW), BinOp(SLE, Arg1(w), Arg2(w)), BinOp(SLT, Arg1(w), Arg2(w)))))
  }

  lemma {:induction false} EvChoice(ndep: Exp, p: Exp, q: Exp, env: Env, e: Env)
    requires Operand(ndep, 64, 1, env) && SameInputs(env, e)
    ensures Ev(Ite(Cast(ndep, 1, CAST_LOW), p, q), e) == if Ev(ndep, env) == 1 then Ev(p, e) else Ev(q, e)
  {
    hide Ev, EvBinOp, EvUnOp, LowPart, Pow2;
    SmallPowers();
    InputsKeep(ndep, env, e);
    EvLowBit(ndep, e);
    EvIte(Cast(ndep, 1, CAST_LOW), p, q, e);
  }

  lemma {:induction false} EvAdcCf(ndep: Exp, w: nat, x: int, a: nat, b: nat, env: Env, e: Env)
    requires 8 <= w <= 64 && Operand(ndep, 64, 1, env) && HasResults(e, env, w, x)
    requires HasCarryTemps(e, env, w, a, b) && a < Pow2(w) && b < Pow2(w)
    ensures var r := LowPart(x, w);
      Ev(Ite(Cast(ndep, 1, CAST_LOW), BinOp(LE, Result(w), Arg1(w)), BinOp(LT, Result(w), Arg1(w))), e)
      == Truth(if Ev(ndep, env) == 1 then r <= a else r < a)
  {
    hide Ev, EvBinOp, EvUnOp, LowPart, Pow2;
    EvResults(e, env, w, x);
    EvCarryTemps(e, env, w, a, b);
    EvOrder(Result(w), Arg1(w), e);
    EvChoice(ndep, BinOp(LE, Result(w), Arg1(w)), BinOp(LT, Result(w), Arg1(w)), env, e);
  }

  lemma {:induction false} EvAdcOf(dep2: Exp, ndep: Exp, w: nat, x: int, a: nat, b: nat, env: Env, e: Env)
    requires 8 <= w <= 64 && XoredOperand(dep2, ndep, w, b, env) && HasResults(e, env, w, x)
    requires HasCarryTemps(e, env, w, a, b) && a < Pow2(w)
    ensures var r := LowPart(x, w);
      Ev(BinOp(BITAND, BinOp(EQ, ARG1_SIGN, SignBitOf(dep2, w)), BinOp(NEQ, ARG1_SIGN, RES_SIGN)), e)
      == Truth(Negative(w, a) == Negative(w, b) && Negative(w, a) != Negative(w, r))
  {
    hide Ev, EvBinOp, EvUnOp, LowPart, Pow2;
    SmallPowers();
    EvResults(e, env, w, x);
    EvCarryTemps(e, env, w, a, b);
    EvSigns(dep2, w, env, e);
    XorWithCarry(w, b, Ev(ndep, env), 0, 0);
    EvEqual(ARG1_SIGN, SignBitOf(dep2, w), e);
    EvEqual(ARG1_SIGN, RES_SIGN, e);
    EvAnd(BinOp(EQ, ARG1_SIGN, SignBitOf(dep2, w)), BinOp(NEQ, ARG1_SIGN, RES_SIGN), e);
    TruthOps(Negative(w, a) == Negative(w, b), Negative(w, a) != Negative(w, LowPart(x, w)));
  }

  lemma {:induction false} EvAdcFormulas(dep1: Exp, dep2: Exp, ndep: Exp, w: nat, x: int, b: nat, env: Env, e: Env)
    requires 8 <= w <= 64 && Operand(dep1, 64, w, env) && XoredOperand(dep2, ndep, w, b, env)
    requires HasResults(e, env, w, x) && HasCarryTemps(e, env, w, Ev(dep1, env), b)
    ensures Computed(AdcFormulas(dep1, dep2, ndep, w), e) == AddBits(w, Ev(dep1, env), b, Ev(ndep, env), LowPart(x, w))
    ensures AllBits(AdcFormulas(dep1, dep2, ndep, w), e)
  {
    hide Ev, EvBinOp, EvUnOp, LowPart, Pow2, Bit, Xor, EvenParity, Negative, Signed;
    EvResults(e, env, w, x);
    EvCommon(dep1, dep2, w, x, env, e);
    SmallPowers();
    XorWithCarry(w, b, Ev(ndep, env), Ev(dep1, env), LowPart(x, w));
    EvAdcCf(ndep, w, x, Ev(dep1, env), b, env, e);
    EvAdcOf(dep2, ndep, w, x, Ev(dep1, env), b, env, e);
  }

  lemma {:induction false} EvSbbCf(ndep: Exp, w: nat, a: nat, b: nat, env: Env, e: Env)
    requires 8 <= w <= 64 && Operand(ndep, 64, 1, env)
    requires HasCarryTemps(e, env, w, a, b) && a < Pow2(w) && b < Pow2(w)
    ensures Ev(Ite(Cast(ndep, 1, CAST_LOW), BinOp(LE, Arg1(w), Arg2(w)), BinOp(LT, Arg1(w), Arg2(w))), e)
      == Truth(if Ev(ndep, env) == 1 then a <= b else a < b)
  {
    hide Ev, EvBinOp, EvUnOp, LowPart, Pow2;
    EvCarryTemps(e, env, w, a, b);
    EvOrder(Arg1(w), Arg2(w), e);
    EvChoice(ndep, BinOp(LE, Arg1(w), Arg2(w)), BinOp(LT, Arg1(w), Arg2(w)), env, e);
  }

  lemma {:induction false} EvSbbOf(ndep: Exp, w: nat, x: int, a: nat, b: nat, env: Env, e: Env)
    requires 8 <= w <= 64 && Operand(ndep, 64, 1, env) && HasResults(e, env, w, x)
    requires HasCarryTemps(e, env, w, a, b) && a < Pow2(w) && b < Pow2(w)
    ensures
      Ev(Xor2(RES_SIGN, Ite(Cast(ndep, 1, CAST_LOW), BinOp(SLE, Arg1(w), Arg2(w)), BinOp(SLT, Arg1(w), Arg2(w)))), e)
      == Truth(Negative(w, LowPart(x, w)) !=
               if Ev(ndep, env) == 1 then Signed(w, a) <= Signed(w, b) else Signed(w, a) < Signed(w, b))
  {
    hide Ev, EvBinOp, EvUnOp, LowPart, Pow2;
    EvResults(e, env, w, x);
    EvCarryTemps(e, env, w, a, b);
    var less := Ite(Cast(ndep, 1, CAST_LOW), BinOp(SLE, Arg1(w), Arg2(w)), BinOp(SLT, Arg1(w), Arg2(w)));
    var l := if Ev(ndep, env) == 1 then Signed(w, a) <= Signed(w, b) else Signed(w, a) < Signed(w, b);
    EvChoice(ndep, BinOp(SLE, Arg1(w), Arg2(w)), BinOp(SLT, Arg1(w), Arg2(w)), env, e);
    EvSigned(Arg1(w), Arg2(w), e, w);
    TruthOps(Negative(w, LowPart(x, w)), l);
    EvXor(RES_SIGN, less, e);
  }

  lemma {:induction false} EvSbbFormulas(dep1: Exp, dep2: Exp, ndep: Exp, w: nat, x: int, b: nat, env: Env, e: Env)
    requires 8 <= w <= 64 && Operand(dep1, 64, w, env) && XoredOperand(dep2, ndep, w, b, env)
    requires HasResults(e, env, w, x) && HasCarryTemps(e, env, w, Ev(dep1, env), b)
    ensures Computed(SbbFormulas(dep1, dep2, ndep, w), e)
      == SubBitsSigned(w, Ev(dep1, env), b, Ev(ndep, env), LowPart(x, w))
    ensures AllBits(SbbFormulas(dep1, dep2, ndep, w), e)
  {
    hide Ev, EvBinOp, EvUnOp, LowPart, Pow2, Bit, Xor, EvenParity, Negative, Signed, Typed, InputsOnly, SameInputs;
    EvResults(e, env, w, x);
    EvCommon(dep1, dep2, w, x, env, e);
    SmallPowers();
    XorWithCarry(w, b, Ev(ndep, env), Ev(dep1, env), LowPart(x, w));
    EvSbbCf(ndep, w, Ev(dep1, env), b, env, e);
    EvSbbOf(ndep, w, x, Ev(dep1, env), b, env, e);
  }

  lemma {:induction false} CarryFormulasFree(dep1: Exp, dep2: Exp, ndep: Exp, w: nat)
    requires InputsOnly(dep1) && InputsOnly(dep2) && InputsOnly(ndep)
    ensures AllFlagFree(AdcFormulas(dep1, dep2, ndep, w)) && AllFlagFree(SbbFormulas(dep1, dep2, ndep, w))
  {
    InputsAreFlagFree(dep1);
    InputsAreFlagFree(dep2);
    InputsAreFlagFree(ndep);
    ParityFree(Result(w));
    AfFree(dep1, dep2);
    SignFree(dep2, w);
    BinOpFree(EQ, ARG1_SIGN, SignBitOf(dep2, w));
    BinOpFree(NEQ, ARG1_SIGN, RES_SIGN);
    ChoiceFree(ndep, BinOp(LE, Result(w), Arg1(w)), BinOp(LT, Result(w), Arg1(w)));
    ChoiceFree(ndep, BinOp(LE, Arg1(w), Arg2(w)), BinOp(LT, Arg1(w), Arg2(w)));
    ChoiceFree(ndep, BinOp(SLE, Arg1(w), Arg2(w)), BinOp(SLT, Arg1(w), Arg2(w)));
  }

  lemma {:induction false} ChoiceFree(ndep: Exp, p: Exp, q: Exp)
    requires FlagFree(ndep) && FlagFree(p) && FlagFree(q)
    ensures FlagFree(Ite(Cast(ndep, 1, CAST_LOW), p, q))
  {
    assert FlagFree(Cast(ndep, 1, CAST_LOW));
  }

  lemma {:induction false} CarryTempsKept(e: Env, e': Env, env: Env, w: nat, a: nat, b: nat)
    requires HasCarryTemps(e, env, w, a, b) && SameInputs(env, e')
      && (forall n: nat :: n > 2 ==> SameVar(Local(n), e, e'))
    ensures HasCarryTemps(e', env, w, a, b)
  {
    assert SameVar(Local(3), e, e') && SameVar(Local(4), e, e') && SameVar(Local(5), e, e') && SameVar(Local(6), e, e');
  }

  lemma {:induction false} EvWideSum(dep1: Exp, ndep: Exp, w: nat, a: nat, b: nat, env: Env, e: Env)
    requires 1 <= w <= 64 && Operand(dep1, 64, w, env) && Operand(ndep, 64, 1, env)
    requires a == Ev(dep1, env) && HasCarryTemps(e, env, w, a, b) && b < Pow2(w)
    ensures var sum := BinOp(PLUS, BinOp(PLUS, dep1, ARG2_W), ndep);
      Typed(sum) && Width(sum) == 64 && Ev(sum, e) == LowPart(a + b + Ev(ndep, env), 64)
    ensures var diff := BinOp(MINUS, BinOp(MINUS, dep1, ARG2_W), ndep);
      Typed(diff) && Width(diff) == 64 && Ev(diff, e) == LowPart(a - b - Ev(ndep, env), 64)
  {
    hide Ev, EvBinOp, EvUnOp, LowPart, Pow2, HasResults;
    InputsKeep(dep1, env, e);
    InputsKeep(ndep, env, e);
    EvCarryTemps(e, env, w, a, b);
    EvSum(dep1, ARG2_W, ndep, e, 64);
    EvDifference(dep1, ARG2_W, ndep, e, 64);
    assert Width(ARG2_W) == 64 && Typed(ARG2_W);
  }

  /** CC_OP_ADCB to CC_OP_ADCQ: b is the real second operand. */
  method ModifyFlagsAdc(w: nat, dep1: Exp, dep2: Exp, ndep: Exp, conditional: bool, cond: Exp, ghost b: nat,
          ghost env: Env)
      returns (newIr: seq<Stmt>)
    requires 8 <= w <= 64 && Operand(dep1, 64, w, env) && XoredOperand(dep2, ndep, w, b, env) && InputsOnly(cond)
    ensures X86FlagsOf(Exec(newIr, env)) ==
      if conditional && Ev(cond, env) == 0 then X86FlagsOf(env) else AddFlags(w, Ev(dep1, env), b, Ev(ndep, env))
  {
    hide Ev, EvBinOp, EvUnOp, LowPart, Pow2, Negative, Typed, Width, AllBits, AllFlagFree, Arithmetic, AddBits,
         SubBits, SubBitsSigned, AddFlags, SubFlags;
    ghost var x := Ev(dep1, env) + b + Ev(ndep, env);
    ghost var e, e';
    newIr, e := PushCarryTemps(dep1, dep2, ndep, w, b, env);
    EvWideSum(dep1, ndep, w, Ev(dep1, env), b, env, e);
    newIr, e' := PushResults(newIr, BinOp(PLUS, BinOp(PLUS, dep1, ARG2_W), ndep), w, x, env, e);
    CarryTempsKept(e, e', env, w, Ev(dep1, env), b);
    var f := AdcFormulas(dep1, dep2, ndep, w);
    EvAdcFormulas(dep1, dep2, ndep, w, x, b, env, e');
    CarryFormulasFree(dep1, dep2, ndep, w);
    SmallPowers();
    AddMeaning(Computed(f, e'), w, Ev(dep1, env), b, Ev(ndep, env));
    newIr := Finish(newIr, f, conditional, cond, Computed(f, e'), env, e');
  }

  /** CC_OP_SBBB to CC_OP_SBBQ. */
  method ModifyFlagsSbb(w: nat, dep1: Exp, dep2: Exp, ndep: Exp, conditional: bool, cond: Exp, ghost b: nat,
          ghost env: Env)
      returns (newIr: seq<Stmt>)
    requires 8 <= w <= 64 && Operand(dep1, 64, w, env) && XoredOperand(dep2, ndep, w, b, env) && InputsOnly(cond)
    ensures X86FlagsOf(Exec(newIr, env)) ==
      if conditional && Ev(cond, env) == 0 then X86FlagsOf(env) else SubFlags(w, Ev(dep1, env), b, Ev(ndep, env))
  {
    hide Ev, EvBinOp, EvUnOp, LowPart, Pow2, Negative, Typed, Width, AllBits, AllFlagFree, Arithmetic, AddBits,
         SubBits, SubBitsSigned, AddFlags, SubFlags;
    ghost var x := Ev(dep1, env) - b - Ev(ndep, env);
    ghost var e, e';
    newIr, e := PushCarryTemps(dep1, dep2, ndep, w, b, env);
    EvWideSum(dep1, ndep, w, Ev(dep1, env), b, env, e);
    newIr, e' := PushResults(newIr, BinOp(MINUS, BinOp(MINUS, dep1, ARG2_W), ndep), w, x, env, e);
    CarryTempsKept(e, e', env, w, Ev(dep1, env), b);
    var f := SbbFormulas(dep1, dep2, ndep, w);
    EvSbbFormulas(dep1, dep2, ndep, w, x, b, env, e');
    CarryFormulasFree(dep1, dep2, ndep, w);
    SmallPowers();
    SubMeaningSigned(Computed(f, e'), w, Ev(dep1, env), b, Ev(ndep, env));
    newIr := Finish(newIr, f, conditional, cond, Computed(f, e'), env, e');
  }
}
