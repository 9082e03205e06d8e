/** The flags of additions and subtractions in libasmir/src/vex/irtoir-arm.cpp
    (arm_modify_flags). */
module ArmFlags {
  import opened Arith
  import opened Powers
  import opened Bits
  import opened FlagExprs
  import opened FlagMath
  import opened FlagFormulas

  const RESULT := Temp(Local(0), 32)
  const SIGN_BIT := Temp(Local(1), 1)

  datatype Formulas = Formulas(nf: Exp, zf: Exp, cf: Exp, vf: Exp)

  // ----- definitions of the flags -----

  function ArmAddFlags(a: nat, b: nat, c: nat): Arm {
    ArmArithmetic(a + b + c, !InUnsigned(32, a + b + c), Signed(32, a) + Signed(32, b) + c)
  }

  /** Carry means no borrow. */
  function ArmSubFlags(a: nat, b: nat, c: nat): Arm {
    ArmArithmetic(a - b - c, InUnsigned(32, a - b - c), Signed(32, a) - Signed(32, b) - c)
  }

  function ArmAddBits(a: nat, b: nat, c: nat, r: nat): Arm {
    Arm(Negative(32, r), r == 0, if c == 1 then r <= a else r < a,
        Negative(32, a) == Negative(32, b) && Negative(32, a) != Negative(32, r))
  }

  function ArmSubBits(a: nat, b: nat, c: nat, r: nat): Arm {
    Arm(Negative(32, r), r == 0, if c == 1 then a > b else a >= b,
        Negative(32, a) != Negative(32, b) && Negative(32, a) != Negative(32, r))
  }

  lemma {:induction false} ArmAddMeaning(f: Arm, a: nat, b: nat, c: nat)
    requires a < Pow2(32) && b < Pow2(32) && c <= 1 && f == ArmAddBits(a, b, c, LowPart(a + b + c, 32))
    ensures f == ArmAddFlags(a, b, c)
  {
    hide LowPart, Pow2;
    LowPartIs(a + b + c, 32);
    AddCarry(32, a, b, c, a + b + c, LowPart(a + b + c, 32));
    AddOverflow(32, a, b, c, LowPart(a + b + c, 32), Signed(32, a) + Signed(32, b) + c);
  }

  lemma {:induction false} ArmSubMeaning(f: Arm, a: nat, b: nat, c: nat)
    requires a < Pow2(32) && b < Pow2(32) && c <= 1 && f == ArmSubBits(a, b, c, LowPart(a - b - c, 32))
    ensures f == ArmSubFlags(a, b, c)
  {
    hide LowPart, Pow2;
    LowPartIs(a - b - c, 32);
    SubOverflow(32, a, b, c, LowPart(a - b - c, 32), Signed(32, a) - Signed(32, b) - c);
  }

  // ----- the formulas -----

  /** vf of an addition, and of a subtraction. */
  function AddVf(dep1: Exp, dep2: Exp): Exp {
    BinOp(BITAND, Xor2(SIGN_BIT, HighBit(dep1)), Xor2(SIGN_BIT, HighBit(dep2)))
  }

  function SubVf(dep1: Exp, dep2: Exp): Exp {
    BinOp(BITAND, Xor2(HighBit(dep1), HighBit(dep2)), Xor2(SIGN_BIT, HighBit(dep1)))
  }

  function WithCf(cf: Exp, vf: Exp): Formulas { Formulas(SIGN_BIT, BinOp(EQ, RESULT, C32(0)), cf, vf) }

  /** ndep ? p : q, on the low bit of ndep */
  function Choice(ndep: Exp, p: Exp, q: Exp): Exp { Ite(Cast(ndep, 1, CAST_LOW), p, q) }

  // ----- the temporaries -----

  ghost predicate HasResult(e: Env, env: Env, x: int) {
    && SameInputs(env, e)
    && Local(0) in e && e[Local(0)] == LowPart(x, 32)
    && Local(1) in e && e[Local(1)] == Truth(Negative(32, LowPart(x, 32)))
  }

  lemma {:induction false} EvResult(e: Env, env: Env, x: int)
    requires HasResult(e, env, x)
    ensures Ev(RESULT, e) == LowPart(x, 32) && Ev(SIGN_BIT, e) == Truth(Negative(32, LowPart(x, 32)))
  {
    hide Ev, EvBinOp, EvUnOp, LowPart, Pow2;
    LowPartFits(x, 32);
    SmallPowers();
    EvLocal(0, 32, e, LowPart(x, 32));
    EvLocal(1, 1, e, Truth(Negative(32, LowPart(x, 32))));
  }

  lemma {:induction false} LocalKeepsArm(e: Env, v: Var, x: nat)
    requires v.Local?
    ensures ArmFlagsOf(e[v := x]) == ArmFlagsOf(e)
  {
  }

  method PushResult(expr: Exp, ghost x: int, ghost env: Env) returns (newIr: seq<Stmt>, ghost e: Env)
    requires Ev(expr, env) == LowPart(x, 32)
    ensures Exec(newIr, env) == e && HasResult(e, env, x) && ArmFlagsOf(e) == ArmFlagsOf(env)
  {
    hide Ev, EvBinOp, EvUnOp, LowPart, Pow2, Negative, ArmFlagsOf;
    ghost var e1;
    newIr, e1 := Push([], Local(0), expr, env, env);
    LocalKeepsArm(env, Local(0), LowPart(x, 32));
    newIr, e := PushSign(newIr, x, env, e1);
  }

  /** The sign of the result in a temporary of its own. */
  method PushSign(newIr: seq<Stmt>, ghost x: int, ghost env: Env, ghost e1: Env)
      returns (out: seq<Stmt>, ghost e: Env)
    requires Exec(newIr, env) == e1 && SameInputs(env, e1) && Local(0) in e1 && e1[Local(0)] == LowPart(x, 32)
    ensures Exec(out, env) == e && HasResult(e, env, x) && ArmFlagsOf(e) == ArmFlagsOf(e1)
  {
    hide Ev, EvBinOp, EvUnOp, LowPart, Pow2, Negative, ArmFlagsOf, Exec, SameInputs;
    LowPartFits(x, 32);
    EvLocal(0, 32, e1, LowPart(x, 32));
    EvHighBit(RESULT, e1);
    out, e := Push(newIr, Local(1), HighBit(RESULT), env, e1);
    LocalKeepsArm(e1, Local(1), e[Local(1)]);
  }

  lemma {:induction false} EvHigh(dep: Exp, env: Env, e: Env)
    requires Operand(dep, 32, 32, env) && SameInputs(env, e)
    ensures Ev(HighBit(dep), e) == Truth(Negative(32, Ev(dep, env))) && Ev(dep, e) == Ev(dep, env)
  {
    hide Ev, EvBinOp, EvUnOp, LowPart, Pow2;
    InputsKeep(dep, env, e);
    EvHighBit(dep, e);
  }

  lemma {:induction false} EvAddVf(dep1: Exp, dep2: Exp, x: int, env: Env, e: Env)
    requires Operand(dep1, 32, 32, env) && Operand(dep2, 32, 32, env) && HasResult(e, env, x)
    ensures var a, b, r := Negative(32, Ev(dep1, env)), Negative(32, Ev(dep2, env)), Negative(32, LowPart(x, 32));
      Ev(AddVf(dep1, dep2), e) == Truth(a == b && a != r)
  {
    hide Ev, EvBinOp, EvUnOp, LowPart, Pow2;
    var a, b, r := Negative(32, Ev(dep1, env)), Negative(32, Ev(dep2, env)), Negative(32, LowPart(x, 32));
    EvResult(e, env, x);
    EvHigh(dep1, env, e);
    EvHigh(dep2, env, e);
    TruthOps(r, a);
    TruthOps(r, b);
    TruthOps(r != a, r != b);
    EvXor(SIGN_BIT, HighBit(dep1), e);
    EvXor(SIGN_BIT, HighBit(dep2), e);
    EvAnd(Xor2(SIGN_BIT, HighBit(dep1)), Xor2(SIGN_BIT, HighBit(dep2)), e);
  }

  lemma {:induction false} EvSubVf(dep1: Exp, dep2: Exp, x: int, env: Env, e: Env)
    requires Operand(dep1, 32, 32, env) && Operand(dep2, 32, 32, env) && HasResult(e, env, x)
    ensures var a, b, r := Negative(32, Ev(dep1, env)), Negative(32, Ev(dep2, env)), Negative(32, LowPart(x, 32));
      Ev(SubVf(dep1, dep2), e) == Truth(a != b && a != r)
  {
    hide Ev, EvBinOp, EvUnOp, LowPart, Pow2;
    var a, b, r := Negative(32, Ev(dep1, env)), Negative(32, Ev(dep2, env)), Negative(32, LowPart(x, 32));
    EvResult(e, env, x);
    EvHigh(dep1, env, e);
    EvHigh(dep2, env, e);
    TruthOps(a, b);
    TruthOps(r, a);
    TruthOps(a != b, r != a);
    EvXor(HighBit(dep1), HighBit(dep2), e);
    EvXor(SIGN_BIT, HighBit(dep1), e);
    EvAnd(Xor2(HighBit(dep1), HighBit(dep2)), Xor2(SIGN_BIT, HighBit(dep1)), e);
  }

  lemma {:induction false} EvChoice(ndep: Exp, p: Exp, q: Exp, env: Env, e: Env)
    requires Operand(ndep, 32, 1, env) && SameInputs(env, e)
    ensures Ev(Choice(ndep, p, q), e) == if Ev(ndep, env) == 1 then Ev(p, e) else Ev(q, e)
  {
    hide Ev, EvBinOp, EvUnOp, LowPart, Pow2;
    SmallPowers();
    InputsKeep(ndep, env, e);
    EvLowBit(ndep, e);
    EvIte(Cast(ndep, 1, CAST_LOW), p, q, e);
  }

  lemma {:induction false} FormulasFree(dep1: Exp, dep2: Exp)
    requires InputsOnly(dep1) && InputsOnly(dep2)
    ensures FlagFree(AddVf(dep1, dep2)) && FlagFree(SubVf(dep1, dep2)) && FlagFree(dep1) && FlagFree(dep2)
  {
    InputsAreFlagFree(dep1);
    InputsAreFlagFree(dep2);
    BinOpFree(XOR, SIGN_BIT, HighBit(dep1));
    BinOpFree(XOR, SIGN_BIT, HighBit(dep2));
    BinOpFree(XOR, HighBit(dep1), HighBit(dep2));
  }

  lemma {:induction false} ChoiceFree(ndep: Exp, p: Exp, q: Exp)
    requires InputsOnly(ndep) && FlagFree(p) && FlagFree(q)
    ensures FlagFree(Choice(ndep, p, q))
  {
    InputsAreFlagFree(ndep);
    assert FlagFree(Cast(ndep, 1, CAST_LOW));
  }

  // ----- assigning -----

  function Computed(x: Formulas, e: Env): Arm {
    Arm(Ev(x.nf, e) == 1, Ev(x.zf, e) == 1, Ev(x.cf, e) == 1, Ev(x.vf, e) == 1)
  }

  /** The moves at the end: all four flags as if at once, or none when the thunk is
      conditional and its condition fails. */
  method Finish(newIr: seq<Stmt>, x: Formulas, conditional: bool, cond: Exp, ghost f: Arm, ghost env: Env, ghost e: Env)
      returns (out: seq<Stmt>)
    requires Exec(newIr, env) == e && SameInputs(env, e) && ArmFlagsOf(e) == ArmFlagsOf(env) && InputsOnly(cond)
    requires Usable(x, e) && Computed(x, e) == f
    ensures ArmFlagsOf(Exec(out, env)) == if conditional && Ev(cond, env) == 0 then ArmFlagsOf(env) else f
  {
    hide Ev, EvBinOp, EvUnOp, LowPart, Pow2, Negative, Exec, FlagFree, SameInputs;
    InputsAreFlagFree(cond);
    InputsKeep(cond, env, e);
    ghost var e';
    out, e' := AssignFlag(newIr, NF, x.nf, conditional, cond, env, e, e);
    out, e' := AssignFlag(out, ZF, x.zf, conditional, cond, env, e, e');
    out, e' := AssignFlag(out, CF, x.cf, conditional, cond, env, e, e');
    out, e' := AssignFlag(out, VF, x.vf, conditional, cond, env, e, e');
  }

  predicate Usable(x: Formulas, e: Env) {
    && FlagFree(x.nf) && FlagFree(x.zf) && FlagFree(x.cf) && FlagFree(x.vf)
    && Ev(x.nf, e) <= 1 && Ev(x.zf, e) <= 1 && Ev(x.cf, e) <= 1 && Ev(x.vf, e) <= 1
  }

  lemma {:induction false} EvWithCf(cf: Exp, vf: Exp, c: bool, v: bool, x: int, env: Env, e: Env)
    requires HasResult(e, env, x) && Ev(cf, e) == Truth(c) && Ev(vf, e) == Truth(v) && FlagFree(cf) && FlagFree(vf)
    ensures var r := LowPart(x, 32);
      Usable(WithCf(cf, vf), e) && Computed(WithCf(cf, vf), e) == Arm(Negative(32, r), r == 0, c, v)
  {
    hide Ev, EvBinOp, EvUnOp, LowPart, Pow2;
    EvResult(e, env, x);
    EvConstant(32, 0, e);
    EvEqual(RESULT, C32(0), e);
    BinOpFree(EQ, RESULT, C32(0));
  }

  lemma {:induction false} EvBelow(dep1: Exp, x: int, env: Env, e: Env)
    requires Operand(dep1, 32, 32, env) && HasResult(e, env, x)
    ensures Ev(BinOp(LT, RESULT, dep1), e) == Truth(LowPart(x, 32) < Ev(dep1, env))
    ensures Ev(BinOp(LE, RESULT, dep1), e) == Truth(LowPart(x, 32) <= Ev(dep1, env))
    ensures FlagFree(BinOp(LT, RESULT, dep1)) && FlagFree(BinOp(LE, RESULT, dep1))
  {
    hide Ev, EvBinOp, EvUnOp, LowPart, Pow2;
    EvResult(e, env, x);
    InputsKeep(dep1, env, e);
    EvOrder(RESULT, dep1, e);
    InputsAreFlagFree(dep1);
    BinOpFree(LT, RESULT, dep1);
    BinOpFree(LE, RESULT, dep1);
  }

  lemma {:induction false} EvAbove(dep1: Exp, dep2: Exp, env: Env, e: Env)
    requires Operand(dep1, 32, 32, env) && Operand(dep2, 32, 32, env) && SameInputs(env, e)
    ensures Ev(BinOp(GE, dep1, dep2), e) == Truth(Ev(dep1, env) >= Ev(dep2, env))
    ensures Ev(BinOp(GT, dep1, dep2), e) == Truth(Ev(dep1, env) > Ev(dep2, env))
    ensures FlagFree(BinOp(GE, dep1, dep2)) && FlagFree(BinOp(GT, dep1, dep2))
  {
    hide Ev, EvBinOp, EvUnOp, LowPart, Pow2;
    InputsKeep(dep1, env, e);
    InputsKeep(dep2, env, e);
    EvOrder(dep1, dep2, e);
    InputsAreFlagFree(dep1);
    InputsAreFlagFree(dep2);
    BinOpFree(GE, dep1, dep2);
    BinOpFree(GT, dep1, dep2);
  }

  // ----- the four operations -----

  /** ARMG_CC_OP_ADD */
  function AddFormulas(dep1: Exp, dep2: Exp): Formulas { WithCf(BinOp(LT, RESULT, dep1), AddVf(dep1, dep2)) }

  lemma {:induction false} EvAddFormulas(dep1: Exp, dep2: Exp, x: int, env: Env, e: Env)
    requires Operand(dep1, 32, 32, env) && Operand(dep2, 32, 32, env) && HasResult(e, env, x)
    ensures Usable(AddFormulas(dep1, dep2), e)
    ensures Computed(AddFormulas(dep1, dep2), e) == ArmAddBits(Ev(dep1, env), Ev(dep2, env), 0, LowPart(x, 32))
  {
    hide Ev, EvBinOp, EvUnOp, LowPart, Pow2;
    var a, b, r := Ev(dep1, env), Ev(dep2, env), LowPart(x, 32);
    EvBelow(dep1, x, env, e);
    EvAddVf(dep1, dep2, x, env, e);
    FormulasFree(dep1, dep2);
    EvWithCf(BinOp(LT, RESULT, dep1), AddVf(dep1, dep2), r < a,
             Negative(32, a) == Negative(32, b) && Negative(32, a) != Negative(32, r), x, env, e);
  }

  method ModifyFlagsAdd(dep1: Exp, dep2: Exp, conditional: bool, cond: Exp, ghost env: Env) returns (newIr: seq<Stmt>)
    requires Operand(dep1, 32, 32, env) && Operand(dep2, 32, 32, env) && InputsOnly(cond)
    ensures ArmFlagsOf(Exec(newIr, env)) ==
      if conditional && Ev(cond, env) == 0 then ArmFlagsOf(env) else ArmAddFlags(Ev(dep1, env), Ev(dep2, env), 0)
  {
    hide Ev, EvBinOp, EvUnOp, LowPart, Pow2, Negative, InSigned, InUnsigned, Signed, Typed, ArmArithmetic,
         ArmAddBits, ArmSubBits, ArmAddFlags, ArmSubFlags, Usable;
    ghost var x, e := Ev(dep1, env) + Ev(dep2, env) + 0, env;
    EvPlus(dep1, dep2, env);
    newIr, e := PushResult(BinOp(PLUS, dep1, dep2), x, env);
    var f := AddFormulas(dep1, dep2);
    EvAddFormulas(dep1, dep2, x, env, e);
    ArmAddMeaning(Computed(f, e), Ev(dep1, env), Ev(dep2, env), 0);
    newIr := Finish(newIr, f, conditional, cond, Computed(f, e), env, e);
  }

  /** ARMG_CC_OP_SUB */
  function SubFormulas(dep1: Exp, dep2: Exp): Formulas { WithCf(BinOp(GE, dep1, dep2), SubVf(dep1, dep2)) }

  lemma {:induction false} EvSubFormulas(dep1: Exp, dep2: Exp, x: int, env: Env, e: Env)
    requires Operand(dep1, 32, 32, env) && Operand(dep2, 32, 32, env) && HasResult(e, env, x)
    ensures Usable(SubFormulas(dep1, dep2), e)
    ensures Computed(SubFormulas(dep1, dep2), e) == ArmSubBits(Ev(dep1, env), Ev(dep2, env), 0, LowPart(x, 32))
  {
    hide Ev, EvBinOp, EvUnOp, LowPart, Pow2;
    var a, b, r := Ev(dep1, env), Ev(dep2, env), LowPart(x, 32);
    EvAbove(dep1, dep2, env, e);
    EvSubVf(dep1, dep2, x, env, e);
    FormulasFree(dep1, dep2);
    EvWithCf(BinOp(GE, dep1, dep2), SubVf(dep1, dep2), a >= b,
             Negative(32, a) != Negative(32, b) && Negative(32, a) != Negative(32, r), x, env, e);
  }

  method ModifyFlagsSub(dep1: Exp, dep2: Exp, conditional: bool, cond: Exp, ghost env: Env) returns (newIr: seq<Stmt>)
    requires Operand(dep1, 32, 32, env) && Operand(dep2, 32, 32, env) && InputsOnly(cond)
    ensures ArmFlagsOf(Exec(newIr, env)) ==
      if conditional && Ev(cond, env) == 0 then ArmFlagsOf(env) else ArmSubFlags(Ev(dep1, env), Ev(dep2, env), 0)
  {
    hide Ev, EvBinOp, EvUnOp, LowPart, Pow2, Negative, InSigned, InUnsigned, Signed, Typed, ArmArithmetic,
         ArmAddBits, ArmSubBits, ArmAddFlags, ArmSubFlags, Usable;
    ghost var x, e := Ev(dep1, env) - Ev(dep2, env) - 0, env;
    EvMinus(dep1, dep2, env);
    newIr, e := PushResult(BinOp(MINUS, dep1, dep2), x, env);
    var f := SubFormulas(dep1, dep2);
    EvSubFormulas(dep1, dep2, x, env, e);
    ArmSubMeaning(Computed(f, e), Ev(dep1, env), Ev(dep2, env), 0);
    newIr := Finish(newIr, f, conditional, cond, Computed(f, e), env, e);
  }

  /** ARMG_CC_OP_ADC: ndep is the old carry. */
  function AdcFormulas(dep1: Exp, dep2: Exp, ndep: Exp): Formulas {
    WithCf(Choice(ndep, BinOp(LE, RESULT, dep1), BinOp(LT, RESULT, dep1)), AddVf(dep1, dep2))
  }

  lemma {:induction false} EvAdcFormulas(dep1: Exp, dep2: Exp, ndep: Exp, x: int, env: Env, e: Env)
    requires Operand(dep1, 32, 32, env) && Operand(dep2, 32, 32, env) && Operand(ndep, 32, 1, env)
      && HasResult(e, env, x)
    ensures Usable(AdcFormulas(dep1, dep2, ndep), e)
    ensures Computed(AdcFormulas(dep1, dep2, ndep), e)
      == ArmAddBits(Ev(dep1, env), Ev(dep2, env), Ev(ndep, env), LowPart(x, 32))
  {
    hide Ev, EvBinOp, EvUnOp, LowPart, Pow2;
    var a, b, r := Ev(dep1, env), Ev(dep2, env), LowPart(x, 32);
    EvBelow(dep1, x, env, e);
    EvAddVf(dep1, dep2, x, env, e);
    EvChoice(ndep, BinOp(LE, RESULT, dep1), BinOp(LT, RESULT, dep1), env, e);
    FormulasFree(dep1, dep2);
    ChoiceFree(ndep, BinOp(LE, RESULT, dep1), BinOp(LT, RESULT, dep1));
    EvWithCf(Choice(ndep, BinOp(LE, RESULT, dep1), BinOp(LT, RESULT, dep1)), AddVf(dep1, dep2),
             if Ev(ndep, env) == 1 then r <= a else r < a,
             Negative(32, a) == Negative(32, b) && Negative(32, a) != Negative(32, r), x, env, e);
  }

  method ModifyFlagsAdc(dep1: Exp, dep2: Exp, ndep: Exp, conditional: bool, cond: Exp, ghost env: Env)
      returns (newIr: seq<Stmt>)
    requires Operand(dep1, 32, 32, env) && Operand(dep2, 32, 32, env) && Operand(ndep, 32, 1, env) && InputsOnly(cond)
    ensures ArmFlagsOf(Exec(newIr, env)) ==
      if conditional && Ev(cond, env) == 0 then ArmFlagsOf(env)
      else ArmAddFlags(Ev(dep1, env), Ev(dep2, env), Ev(ndep, env))
  {
    hide Ev, EvBinOp, EvUnOp, LowPart, Pow2, Negative, InSigned, InUnsigned, Signed, Typed, ArmArithmetic,
         ArmAddBits, ArmSubBits, ArmAddFlags, ArmSubFlags, Usable;
    ghost var x, e := Ev(dep1, env) + Ev(dep2, env) + Ev(ndep, env), env;
    SmallPowers();
    EvSum(dep1, dep2, ndep, env, 32);
    newIr, e := PushResult(BinOp(PLUS, BinOp(PLUS, dep1, dep2), ndep), x, env);
    var f := AdcFormulas(dep1, dep2, ndep);
    EvAdcFormulas(dep1, dep2, ndep, x, env, e);
    ArmAddMeaning(Computed(f, e), Ev(dep1, env), Ev(dep2, env), Ev(ndep, env));
    newIr := Finish(newIr, f, conditional, cond, Computed(f, e), env, e);
  }

  /** ARMG_CC_OP_SBB: a clear old carry is a borrow. */
  function SbbFormulas(dep1: Exp, dep2: Exp, ndep: Exp): Formulas {
    WithCf(Choice(ndep, BinOp(GE, dep1, dep2), BinOp(GT, dep1, dep2)), SubVf(dep1, dep2))
  }

  function Borrow(ndep: Exp, env: Env): nat { if Ev(ndep, env) == 1 then 0 else 1 }

  lemma {:induction false} EvSbbFormulas(dep1: Exp, dep2: Exp, ndep: Exp, x: int, env: Env, e: Env)
    requires Operand(dep1, 32, 32, env) && Operand(dep2, 32, 32, env) && Operand(ndep, 32, 1, env)
      && HasResult(e, env, x)
    ensures Usable(SbbFormulas(dep1, dep2, ndep), e)
    ensures Computed(SbbFormulas(dep1, dep2, ndep), e)
      == ArmSubBits(Ev(dep1, env), Ev(dep2, env), Borrow(ndep, env), LowPart(x, 32))
  {
    hide Ev, EvBinOp, EvUnOp, LowPart, Pow2;
    var a, b, r := Ev(dep1, env), Ev(dep2, env), LowPart(x, 32);
    EvAbove(dep1, dep2, env, e);
    EvSubVf(dep1, dep2, x, env, e);
    EvChoice(ndep, BinOp(GE, dep1, dep2), BinOp(GT, dep1, dep2), env, e);
    FormulasFree(dep1, dep2);
    ChoiceFree(ndep, BinOp(GE, dep1, dep2), BinOp(GT, dep1, dep2));
    EvWithCf(Choice(ndep, BinOp(GE, dep1, dep2), BinOp(GT, dep1, dep2)), SubVf(dep1, dep2),
             if Ev(ndep, env) == 1 then a >= b else a > b,
             Negative(32, a) != Negative(32, b) && Negative(32, a) != Negative(32, r), x, env, e);
  }

  method ModifyFlagsSbb(dep1: Exp, dep2: Exp, ndep: Exp, conditional: bool, cond: Exp, ghost env: Env)
      returns (newIr: seq<Stmt>)
    requires Operand(dep1, 32, 32, env) && Operand(dep2, 32, 32, env) && Operand(ndep, 32, 1, env) && InputsOnly(cond)
    ensures ArmFlagsOf(Exec(newIr, env)) ==
      if conditional && Ev(cond, env) == 0 then ArmFlagsOf(env)
      else ArmSubFlags(Ev(dep1, env), Ev(dep2, env), Borrow(ndep, env))
  {
    hide Ev, EvBinOp, EvUnOp, LowPart, Pow2, Negative, InSigned, InUnsigned, Signed, Typed, ArmArithmetic,
         ArmAddBits, ArmSubBits, ArmAddFlags, ArmSubFlags, Usable;
    ghost var x, e := Ev(dep1, env) - Ev(dep2, env) - Borrow(ndep, env), env;
    var borrow := Xor2(ndep, C32(1));
    EvBorrow(ndep, env);
    EvDifference(dep1, dep2, borrow, env, 32);
    newIr, e := PushResult(BinOp(MINUS, BinOp(MINUS, dep1, dep2), borrow), x, env);
    var f := SbbFormulas(dep1, dep2, ndep);
    EvSbbFormulas(dep1, dep2, ndep, x, env, e);
    ArmSubMeaning(Computed(f, e), Ev(dep1, env), Ev(dep2, env), Borrow(ndep, env));
    newIr := Finish(newIr, f, conditional, cond, Computed(f, e), env, e);
  }

  lemma {:induction false} EvBorrow(ndep: Exp, env: Env)
    requires Operand(ndep, 32, 1, env)
    ensures Ev(Xor2(ndep, C32(1)), env) == Borrow(ndep, env)
  {
    hide Ev, EvBinOp, EvUnOp, LowPart, Pow2, Xor, And, Or;
    SmallPowers();
    EvConstant(32, 1, env);
    EvXor(ndep, C32(1), env);
    TruthOps(Ev(ndep, env) == 1, true);
  }
}
