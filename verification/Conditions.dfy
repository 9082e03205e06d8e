/** The condition formulas of the three translators: after a comparison each condition
    is the comparison it is named after, and the ARM selection by a run-time condition
    number agrees with the formula for that number. */
module Conditions {
  import opened Arith
  import opened Powers
  import opened Bits
  import opened FlagExprs
  import opened FlagMath
  import opened FlagFormulas
  import opened ArmFlags

  function FlagExp(f: FlagName): Exp { Temp(Flag(f), 1) }

  lemma {:induction false} EvFlag(f: FlagName, env: Env)
    ensures Ev(FlagExp(f), env) == Get(env, f) <= 1
  {
    FlagFits(env, f);
  }

  // ----- x86 -----

  datatype X86Cond =
    | CondO | CondNO | CondB | CondNB | CondZ | CondNZ | CondBE | CondNBE
    | CondS | CondNS | CondP | CondNP | CondL | CondNL | CondLE | CondNLE

  /** The formula for one condition, the same for i386 and x64. */
  function X86CondFormula(c: X86Cond): Exp {
    match c
    case CondO => FlagExp(OF)
    case CondNO => Not(FlagExp(OF))
    case CondB => FlagExp(CF)
    case CondNB => Not(FlagExp(CF))
    case CondZ => FlagExp(ZF)
    case CondNZ => Not(FlagExp(ZF))
    case CondS => FlagExp(SF)
    case CondNS => Not(FlagExp(SF))
    case CondP => FlagExp(PF)
    case CondNP => Not(FlagExp(PF))
    case CondBE => BinOp(BITOR, FlagExp(CF), FlagExp(ZF))
    case CondNBE => Not(BinOp(BITOR, FlagExp(CF), FlagExp(ZF)))
    case CondL => Xor2(FlagExp(SF), FlagExp(OF))
    case CondNL => Not(Xor2(FlagExp(SF), FlagExp(OF)))
    case CondLE => BinOp(BITOR, Xor2(FlagExp(SF), FlagExp(OF)), FlagExp(ZF))
    case CondNLE => Not(BinOp(BITOR, Xor2(FlagExp(SF), FlagExp(OF)), FlagExp(ZF)))
  }

  /** What the condition says of the operands of cmp a, b. */
  predicate X86Compares(c: X86Cond, w: nat, a: nat, b: nat)
    requires w >= 1
  {
    match c
    case CondO => !InSigned(w, Signed(w, a) - Signed(w, b))
    case CondNO => InSigned(w, Signed(w, a) - Signed(w, b))
    case CondB => a < b
    case CondNB => a >= b
    case CondZ => a == b
    case CondNZ => a != b
    case CondBE => a <= b
    case CondNBE => a > b
    case CondS => Negative(w, LowPart(a - b, w))
    case CondNS => !Negative(w, LowPart(a - b, w))
    case CondP => EvenParity(LowPart(a - b, w))
    case CondNP => !EvenParity(LowPart(a - b, w))
    case CondL => Signed(w, a) < Signed(w, b)
    case CondNL => Signed(w, a) >= Signed(w, b)
    case CondLE => Signed(w, a) <= Signed(w, b)
    case CondNLE => Signed(w, a) > Signed(w, b)
  }

  /** The formula as a function of the flags. */
  predicate X86Holds(c: X86Cond, f: X86) {
    match c
    case CondO => f.of
    case CondNO => !f.of
    case CondB => f.cf
    case CondNB => !f.cf
    case CondZ => f.zf
    case CondNZ => !f.zf
    case CondBE => f.cf || f.zf
    case CondNBE => !(f.cf || f.zf)
    case CondS => f.sf
    case CondNS => !f.sf
    case CondP => f.pf
    case CondNP => !f.pf
    case CondL => f.sf != f.of
    case CondNL => f.sf == f.of
    case CondLE => f.sf != f.of || f.zf
    case CondNLE => !(f.sf != f.of || f.zf)
  }

  lemma {:induction false} EvOrTruth(p: Exp, q: Exp, env: Env, b: bool, c: bool)
    requires Ev(p, env) == Truth(b) && Ev(q, env) == Truth(c)
    ensures Ev(BinOp(BITOR, p, q), env) == Truth(b || c)
  {
    hide Ev, EvBinOp, EvUnOp, LowPart, Pow2, And, Or, Xor;
    EvOr(p, q, env);
    TruthOps(b, c);
  }

  lemma {:induction false} EvXorTruth(p: Exp, q: Exp, env: Env, b: bool, c: bool)
    requires Ev(p, env) == Truth(b) && Ev(q, env) == Truth(c)
    ensures Ev(Xor2(p, q), env) == Truth(b != c)
  {
    hide Ev, EvBinOp, EvUnOp, LowPart, Pow2, And, Or, Xor;
    EvXor(p, q, env);
    TruthOps(b, c);
  }

  lemma {:induction false} EvX86Cond(c: X86Cond, env: Env)
    ensures Ev(X86CondFormula(c), env) == Truth(X86Holds(c, X86FlagsOf(env)))
  {
    hide Ev, EvBinOp, EvUnOp, LowPart, Pow2, And, Or, Xor;
    var f := X86FlagsOf(env);
    EvFlag(OF, env);
    EvFlag(CF, env);
    EvFlag(ZF, env);
    EvFlag(SF, env);
    EvFlag(PF, env);
    EvNotTruth(FlagExp(OF), env, f.of);
    EvNotTruth(FlagExp(CF), env, f.cf);
    EvNotTruth(FlagExp(ZF), env, f.zf);
    EvNotTruth(FlagExp(SF), env, f.sf);
    EvNotTruth(FlagExp(PF), env, f.pf);
    EvOrTruth(FlagExp(CF), FlagExp(ZF), env, f.cf, f.zf);
    EvNotTruth(BinOp(BITOR, FlagExp(CF), FlagExp(ZF)), env, f.cf || f.zf);
    var less := Xor2(FlagExp(SF), FlagExp(OF));
    EvXorTruth(FlagExp(SF), FlagExp(OF), env, f.sf, f.of);
    EvNotTruth(less, env, f.sf != f.of);
    EvOrTruth(less, FlagExp(ZF), env, f.sf != f.of, f.zf);
    EvNotTruth(BinOp(BITOR, less, FlagExp(ZF)), env, f.sf != f.of || f.zf);
  }

  /** The sign and overflow of a difference tell which operand is less. */
  lemma {:induction false} SignAndOverflow(w: nat, a: nat, b: nat)
    requires w >= 1 && a < Pow2(w) && b < Pow2(w)
    ensures (Negative(w, LowPart(a - b, w)) != !InSigned(w, Signed(w, a) - Signed(w, b)))
      <==> Signed(w, a) < Signed(w, b)
    ensures LowPart(a - b, w) == 0 <==> a == b
    ensures Signed(w, a) == Signed(w, b) <==> a == b
  {
    hide LowPart, Pow2;
    Doubled(w - 1);
    LowPartIs(a - b, w);
    DifferenceMod(a - b, Pow2(w));
  }

  /** After a subtraction of w-bit operands every x86 condition is its comparison. */
  lemma {:induction false} X86ConditionsCompare(c: X86Cond, w: nat, a: nat, b: nat, env: Env)
    requires w >= 8 && a < Pow2(w) && b < Pow2(w) && X86FlagsOf(env) == SubFlags(w, a, b, 0)
    ensures Ev(X86CondFormula(c), env) == Truth(X86Compares(c, w, a, b))
  {
    EvX86Cond(c, env);
    SignAndOverflow(w, a, b);
    var f := SubFlags(w, a, b, 0);
    assert f.cf == (a < b);
    assert f.sf == Negative(w, LowPart(a - b, w)) && f.zf == (a == b) && f.pf == EvenParity(LowPart(a - b, w));
    assert f.of == !InSigned(w, Signed(w, a) - Signed(w, b));
  }

  // ----- ARM -----

  /** arm_cond_formula: EQ, NE, HS, LO, MI, PL, VS, VC, HI, LS, GE, LT, GT, LE, AL
      and NV are 0 to 15. */
  function ArmCondFormula(cond: nat): Exp
    requires cond < 16
  {
    match cond
    case 0 => FlagExp(ZF)
    case 1 => Not(FlagExp(ZF))
    case 2 => FlagExp(CF)
    case 3 => Not(FlagExp(CF))
    case 4 => FlagExp(NF)
    case 5 => Not(FlagExp(NF))
    case 6 => FlagExp(VF)
    case 7 => Not(FlagExp(VF))
    case 8 => BinOp(BITAND, FlagExp(CF), Not(FlagExp(ZF)))
    case 9 => BinOp(BITOR, Not(FlagExp(CF)), FlagExp(ZF))
    case 10 => BinOp(EQ, FlagExp(NF), FlagExp(VF))
    case 11 => Xor2(FlagExp(NF), FlagExp(VF))
    case 12 => BinOp(BITAND, Not(FlagExp(ZF)), BinOp(EQ, FlagExp(NF), FlagExp(VF)))
    case 13 => BinOp(BITOR, FlagExp(ZF), Xor2(FlagExp(NF), FlagExp(VF)))
    case 14 => Constant(1, 1)
    case _ => Constant(1, 0)
  }

  predicate ArmHolds(cond: nat, f: Arm) {
    match cond
    case 0 => f.zf
    case 1 => !f.zf
    case 2 => f.cf
    case 3 => !f.cf
    case 4 => f.nf
    case 5 => !f.nf
    case 6 => f.vf
    case 7 => !f.vf
    case 8 => f.cf && !f.zf
    case 9 => !f.cf || f.zf
    case 10 => f.nf == f.vf
    case 11 => f.nf != f.vf
    case 12 => !f.zf && f.nf == f.vf
    case 13 => f.zf || f.nf != f.vf
    case 14 => true
    case _ => false
  }

  lemma {:induction false} EvAndTruth(p: Exp, q: Exp, env: Env, b: bool, c: bool)
    requires Ev(p, env) == Truth(b) && Ev(q, env) == Truth(c)
    ensures Ev(BinOp(BITAND, p, q), env) == Truth(b && c)
  {
    hide Ev, EvBinOp, EvUnOp, LowPart, Pow2, And, Or, Xor;
    EvAnd(p, q, env);
    TruthOps(b, c);
  }

  lemma {:induction false} EvArmCond(cond: nat, env: Env)
    requires cond < 16
    ensures Ev(ArmCondFormula(cond), env) == Truth(ArmHolds(cond, ArmFlagsOf(env)))
  {
    hide Ev, EvBinOp, EvUnOp, LowPart, Pow2, And, Or, Xor;
    var f := ArmFlagsOf(env);
    EvFlag(NF, env);
    EvFlag(ZF, env);
    EvFlag(CF, env);
    EvFlag(VF, env);
    EvConstant(1, 1, env);
    EvConstant(1, 0, env);
    EvNotTruth(FlagExp(NF), env, f.nf);
    EvNotTruth(FlagExp(ZF), env, f.zf);
    EvNotTruth(FlagExp(CF), env, f.cf);
    EvNotTruth(FlagExp(VF), env, f.vf);
    EvAndTruth(FlagExp(CF), Not(FlagExp(ZF)), env, f.cf, !f.zf);
    EvOrTruth(Not(FlagExp(CF)), FlagExp(ZF), env, !f.cf, f.zf);
    EvXorTruth(FlagExp(NF), FlagExp(VF), env, f.nf, f.vf);
    var same := BinOp(EQ, FlagExp(NF), FlagExp(VF));
    EvEqual(FlagExp(NF), FlagExp(VF), env);
    EvAndTruth(Not(FlagExp(ZF)), same, env, !f.zf, f.nf == f.vf);
    EvOrTruth(FlagExp(ZF), Xor2(FlagExp(NF), FlagExp(VF)), env, f.zf, f.nf != f.vf);
  }

  /** What the condition says of the operands of cmp a, b. */
  predicate ArmCompares(cond: nat, a: nat, b: nat) {
    match cond
    case 0 => a == b
    case 1 => a != b
    case 2 => a >= b
    case 3 => a < b
    case 4 => Negative(32, LowPart(a - b, 32))
    case 5 => !Negative(32, LowPart(a - b, 32))
    case 6 => !InSigned(32, Signed(32, a) - Signed(32, b))
    case 7 => InSigned(32, Signed(32, a) - Signed(32, b))
    case 8 => a > b
    case 9 => a <= b
    case 10 => Signed(32, a) >= Signed(32, b)
    case 11 => Signed(32, a) < Signed(32, b)
    case 12 => Signed(32, a) > Signed(32, b)
    case 13 => Signed(32, a) <= Signed(32, b)
    case 14 => true
    case _ => false
  }

  /** After a subtraction every ARM condition is its comparison. */
  lemma {:induction false} ArmConditionsCompare(cond: nat, a: nat, b: nat, env: Env)
    requires cond < 16 && a < Pow2(32) && b < Pow2(32) && ArmFlagsOf(env) == ArmSubFlags(a, b, 0)
    ensures Ev(ArmCondFormula(cond), env) == Truth(ArmCompares(cond, a, b))
  {
    hide Ev, EvBinOp, EvUnOp, ArmFlagsOf, LowPart, Pow2;
    EvArmCond(cond, env);
    SignAndOverflow(32, a, b);
    var f := ArmSubFlags(a, b, 0);
    assert f.nf == Negative(32, LowPart(a - b, 32)) && f.zf == (a == b);
    assert f.cf == (a >= b) by { Pow2Mono(0, 32); }
    assert f.vf == !InSigned(32, Signed(32, a) - Signed(32, b));
  }

  // ----- selecting an ARM condition at run time -----

  const COND_TEMP := Temp(Local(2), 32)
  const SEL0 := Temp(Local(3), 1)
  const SEL1 := Temp(Local(4), 1)

  /** The loop that makes the eight even conditions. */
  method EvenConditions() returns (cases: seq<Exp>)
    ensures |cases| == 8 && forall i :: 0 <= i < 8 ==> cases[i] == ArmCondFormula(2 * i)
  {
    cases := [];
    for i := 0 to 8
      invariant |cases| == i && forall j :: 0 <= j < i ==> cases[j] == ArmCondFormula(2 * j)
    {
      cases := cases + [ArmCondFormula(2 * i)];
    }
  }

  lemma {:induction false} OddIsInverse(k: nat, f: Arm)
    requires k < 8
    ensures ArmHolds(2 * k + 1, f) == !ArmHolds(2 * k, f)
  {
  }

  const SEL2 := GetBit(COND_TEMP, 3)
  const FLIP := Cast(COND_TEMP, 1, CAST_LOW)

  /** The low three levels of the selection tree, over the eight cases. */
  function Select(cases: seq<Exp>): Exp
    requires |cases| == 8
  {
    var choice01, choice23 := Ite(SEL0, cases[1], cases[0]), Ite(SEL0, cases[3], cases[2]);
    var choice45, choice67 := Ite(SEL0, cases[5], cases[4]), Ite(SEL0, cases[7], cases[6]);
    Ite(SEL2, Ite(SEL1, choice67, choice45), Ite(SEL1, choice23, choice01))
  }

  /** The temporaries say which of the 16 conditions n is. */
  ghost predicate Selects(e: Env, n: nat) {
    Ev(SEL0, e) == n / 2 % 2 && Ev(SEL1, e) == n / 4 % 2 && Ev(SEL2, e) == n / 8 % 2 && Ev(FLIP, e) == n % 2
  }

  lemma {:induction false} EvSelect(cases: seq<Exp>, n: nat, e: Env)
    requires |cases| == 8 && n < 16 && Selects(e, n)
    ensures Ev(Select(cases), e) == Ev(cases[n / 2], e)
  {
    hide Ev, EvBinOp, EvUnOp, LowPart, Pow2, And, Or, Xor;
    EvIte(SEL0, cases[1], cases[0], e);
    EvIte(SEL0, cases[3], cases[2], e);
    EvIte(SEL0, cases[5], cases[4], e);
    EvIte(SEL0, cases[7], cases[6], e);
    var choice01, choice23 := Ite(SEL0, cases[1], cases[0]), Ite(SEL0, cases[3], cases[2]);
    var choice45, choice67 := Ite(SEL0, cases[5], cases[4]), Ite(SEL0, cases[7], cases[6]);
    EvIte(SEL1, choice67, choice45, e);
    EvIte(SEL1, choice23, choice01, e);
    EvIte(SEL2, Ite(SEL1, choice67, choice45), Ite(SEL1, choice23, choice01), e);
  }

  lemma {:induction false} NibbleBits(n: nat)
    requires n < 16
    ensures Bit(n, 1) == n / 2 % 2 && Bit(n, 2) == n / 4 % 2 && Bit(n, 3) == n / 8 % 2
  {
    hide Bit, Pow2;
    SmallPowers();
    BitIs(n, 1);
    BitIs(n, 2);
    BitIs(n, 3);
  }

  lemma {:induction false} Condition(cond0: Exp, env: Env)
    requires Operand(cond0, 32, 8, env)
    ensures Ev(Shr(cond0, 4), env) == Ev(cond0, env) / 16 < 16
  {
    hide Ev, EvBinOp, EvUnOp, LowPart, Pow2, ShiftedRight;
    SmallPowers();
    EvShr(cond0, 4, env);
    ShiftedRightIs(Ev(cond0, env), 4);
  }

  lemma {:induction false} EvSelectors(e: Env, n: nat)
    requires n < 16 && Local(2) in e && e[Local(2)] == n
    requires Local(3) in e && e[Local(3)] == n / 2 % 2 && Local(4) in e && e[Local(4)] == n / 4 % 2
    ensures Selects(e, n)
  {
    hide Ev, EvBinOp, EvUnOp, LowPart, Pow2;
    EvCondTemp(e, n);
    SmallPowers();
    EvLocal(3, 1, e, n / 2 % 2);
    EvLocal(4, 1, e, n / 4 % 2);
  }

  lemma {:induction false} EvCondTemp(e: Env, n: nat)
    requires n < 16 && Local(2) in e && e[Local(2)] == n
    ensures Ev(COND_TEMP, e) == n && Ev(GetBit(COND_TEMP, 1), e) == n / 2 % 2
      && Ev(GetBit(COND_TEMP, 2), e) == n / 4 % 2
    ensures Ev(SEL2, e) == n / 8 % 2 && Ev(FLIP, e) == n % 2
  {
    hide Ev, EvBinOp, EvUnOp, LowPart, Pow2, And, Or, Xor;
    SmallPowers();
    Pow2Mono(4, 32);
    EvLocal(2, 32, e, n);
    NibbleBits(n);
    EvLowBit(COND_TEMP, e);
    EvGetBit(COND_TEMP, 1, e);
    EvGetBit(COND_TEMP, 2, e);
    EvGetBit(COND_TEMP, 3, e);
  }

  /** The condition number shifted down, and its bits 1 and 2. */
  method PushSelectors(cond0: Exp, ghost env: Env) returns (irout: seq<Stmt>, ghost e: Env)
    requires Operand(cond0, 32, 8, env)
    ensures Exec(irout, env) == e && ArmFlagsOf(e) == ArmFlagsOf(env) && Selects(e, Ev(cond0, env) / 16)
  {
    hide Ev, EvBinOp, EvUnOp, LowPart, Pow2, Typed, InputsOnly, ArmFlagsOf, Selects;
    ghost var n, e1 := Ev(cond0, env) / 16, env;
    Condition(cond0, env);
    irout, e1 := Push([], Local(2), Shr(cond0, 4), env, env);
    LocalKeepsArm(env, Local(2), n);
    irout, e := PushBits(irout, n, env, e1);
  }

  method PushBits(newIr: seq<Stmt>, ghost n: nat, ghost env: Env, ghost e1: Env)
      returns (irout: seq<Stmt>, ghost e: Env)
    requires Exec(newIr, env) == e1 && SameInputs(env, e1) && n < 16 && Local(2) in e1 && e1[Local(2)] == n
    ensures Exec(irout, env) == e && ArmFlagsOf(e) == ArmFlagsOf(e1) && Selects(e, n)
  {
    hide Ev, EvBinOp, EvUnOp, LowPart, Pow2, ArmFlagsOf, Selects, Exec, SameInputs;
    ghost var e2;
    EvCondTemp(e1, n);
    irout, e2 := Push(newIr, Local(3), GetBit(COND_TEMP, 1), env, e1);
    EvCondTemp(e2, n);
    irout, e := Push(irout, Local(4), GetBit(COND_TEMP, 2), env, e2);
    EvSelectors(e, n);
    LocalKeepsArm(e1, Local(3), e2[Local(3)]);
    LocalKeepsArm(e2, Local(4), e[Local(4)]);
  }

  /** The selection by a condition that is only known at run time, for
      cond_0 = cond * 16 + operation. */
  method SelectCondition(cond0: Exp, ghost env: Env) returns (irout: seq<Stmt>, result: Exp)
    requires Operand(cond0, 32, 8, env)
    ensures Ev(cond0, env) / 16 < 16
    ensures Ev(result, Exec(irout, env)) == Ev(ArmCondFormula(Ev(cond0, env) / 16), env)
  {
    hide Ev, EvBinOp, EvUnOp, LowPart, Pow2, Typed, InputsOnly;
    Condition(cond0, env);
    ghost var n, e := Ev(cond0, env) / 16, env;
    irout, e := PushSelectors(cond0, env);
    var cases := EvenConditions();
    result := Xor2(Select(cases), FLIP);
    EvSelect(cases, n, e);
    Flipped(Select(cases), n, env, e);
  }

  lemma {:induction false} Flipped(choice: Exp, n: nat, env: Env, e: Env)
    requires n < 16 && ArmFlagsOf(e) == ArmFlagsOf(env)
    requires Ev(choice, e) == Ev(ArmCondFormula(2 * (n / 2)), e) && Ev(FLIP, e) == n % 2
    ensures Ev(Xor2(choice, FLIP), e) == Ev(ArmCondFormula(n), env)
  {
    hide Ev, EvBinOp, EvUnOp, LowPart, Pow2, And, Or, Xor;
    var f := ArmFlagsOf(env);
    EvArmCond(2 * (n / 2), e);
    EvArmCond(n, env);
    OddIsInverse(n / 2, f);
    EvXorTruth(choice, FLIP, e, ArmHolds(2 * (n / 2), f), n % 2 == 1);
  }
}
