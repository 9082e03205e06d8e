/** The flag formulas that the three translators share, with what they evaluate to,
    and the specification of the x86 and ARM flags. */
module FlagFormulas {
  import opened Arith
  import opened Powers
  import opened Bits
  import opened FlagExprs
  import opened FlagMath

  function C32(val: nat): Exp { Constant(32, val) }

  function Xor2(a: Exp, b: Exp): Exp { BinOp(XOR, a, b) }

  /** _ex_xor of three and of eight operands */
  function Xor3(a: Exp, b: Exp, c: Exp): Exp { Xor2(a, Xor2(b, c)) }

  function Xor8(a: Exp, b: Exp, c: Exp, d: Exp, e: Exp, f: Exp, g: Exp, h: Exp): Exp {
    Xor2(Xor2(Xor2(a, b), Xor2(c, d)), Xor2(Xor2(e, f), Xor2(g, h)))
  }

  function Shr(a: Exp, k: nat): Exp { BinOp(RSHIFT, a, C32(k)) }

  /** _ex_get_bit */
  function GetBit(e: Exp, which: nat): Exp { Cast(Shr(e, which), 1, CAST_LOW) }

  lemma {:induction false} EvShr(e: Exp, k: nat, env: Env)
    requires k < Width(e)
    ensures Ev(Shr(e, k), env) == ShiftedRight(Ev(e, env), k)
  {
    EvShrOp(e, C32(k), env);
    EvConstant(32, k, env);
  }

  lemma {:induction false} LowBitIs(x: int)
    ensures LowPart(x, 1) == x % 2
  {
    LowPartIs(x, 1);
    SmallPowers();
  }

  lemma {:induction false} EvGetBit(e: Exp, which: nat, env: Env)
    requires which < Width(e)
    ensures Ev(GetBit(e, which), env) == Bit(Ev(e, env), which)
  {
    EvShr(e, which, env);
    EvCast(Shr(e, which), 1, env);
    LowBitIs(ShiftedRight(Ev(e, env), which));
    ShiftedBit(Ev(e, env), which);
  }

  lemma {:induction false} EvXor3(a: Exp, b: Exp, c: Exp, env: Env)
    ensures Ev(Xor3(a, b, c), env) == Xor(Ev(a, env), Xor(Ev(b, env), Ev(c, env)))
  {
    EvXor(b, c, env);
    EvXor(a, Xor2(b, c), env);
  }

  // ----- parity -----

  /** parity8, and CALC_COND_PF of its low byte */
  function Parity8(e: Exp): Exp {
    Not(Cast(Xor8(Shr(e, 7), Shr(e, 6), Shr(e, 5), Shr(e, 4), Shr(e, 3), Shr(e, 2), Shr(e, 1), e), 1, CAST_LOW))
  }

  lemma {:induction false} EvXor4(a: Exp, b: Exp, c: Exp, d: Exp, env: Env)
    ensures Ev(Xor2(Xor2(a, b), Xor2(c, d)), env) == Xor(Xor(Ev(a, env), Ev(b, env)), Xor(Ev(c, env), Ev(d, env)))
  {
    EvXor(a, b, env);
    EvXor(c, d, env);
    EvXor(Xor2(a, b), Xor2(c, d), env);
  }

  lemma {:induction false} EvXor8(a: Exp, b: Exp, c: Exp, d: Exp, e: Exp, f: Exp, g: Exp, h: Exp, env: Env)
    ensures Ev(Xor8(a, b, c, d, e, f, g, h), env)
         == Fold8(Ev(a, env), Ev(b, env), Ev(c, env), Ev(d, env), Ev(e, env), Ev(f, env), Ev(g, env), Ev(h, env))
  {
    EvXor4(a, b, c, d, env);
    EvXor4(e, f, g, h, env);
    EvXor(Xor2(Xor2(a, b), Xor2(c, d)), Xor2(Xor2(e, f), Xor2(g, h)), env);
  }

  lemma {:induction false} EvParity8(e: Exp, env: Env)
    requires Width(e) >= 8
    ensures Ev(Parity8(e), env) == Truth(EvenParity(Ev(e, env)))
  {
    EvShr(e, 7, env);
    EvShr(e, 6, env);
    EvShr(e, 5, env);
    EvShr(e, 4, env);
    EvShr(e, 3, env);
    EvShr(e, 2, env);
    EvShr(e, 1, env);
    var x := Xor8(Shr(e, 7), Shr(e, 6), Shr(e, 5), Shr(e, 4), Shr(e, 3), Shr(e, 2), Shr(e, 1), e);
    EvXor8(Shr(e, 7), Shr(e, 6), Shr(e, 5), Shr(e, 4), Shr(e, 3), Shr(e, 2), Shr(e, 1), e, env);
    FoldedParity(Ev(e, env));
    assert Ev(x, env) == Folded(Ev(e, env));
    EvNotLowBit(x, env);
  }

  lemma {:induction false} EvLowBit(x: Exp, env: Env)
    ensures Ev(Cast(x, 1, CAST_LOW), env) == Ev(x, env) % 2
  {
    EvCast(x, 1, env);
    LowBitIs(Ev(x, env));
  }

  lemma {:induction false} EvNotLowBit(x: Exp, env: Env)
    ensures Ev(Not(Cast(x, 1, CAST_LOW)), env) == Truth(Ev(x, env) % 2 == 0)
  {
    EvLowBit(x, env);
    EvNotTruth(Cast(x, 1, CAST_LOW), env, Ev(x, env) % 2 == 1);
  }

  lemma {:induction false} EvNotTruth(p: Exp, env: Env, b: bool)
    requires Width(p) == 1 && Ev(p, env) == Truth(b)
    ensures Ev(Not(p), env) == Truth(!b)
  {
    EvNot(p, env);
    LowBitIs(0 - 1 - Truth(b));
  }

  lemma {:induction false} ParityOfByte(x: nat)
    ensures EvenParity(x % 0x100) == EvenParity(x)
  {
    ModSmall(x % 0x100, 0x100);
  }

  // ----- signs -----

  /** The top bit by a cast. */
  function HighBit(e: Exp): Exp { Cast(e, 1, CAST_HIGH) }

  lemma {:induction false} EvHighBit(e: Exp, env: Env)
    requires Typed(e) && Width(e) >= 1
    ensures Ev(HighBit(e), env) == Truth(Negative(Width(e), Ev(e, env)))
  {
    EvFits(e, env);
    EvCast(e, 1, env);
    SignIsTopBit(Width(e), Ev(e, env));
  }

  // ----- the flags -----

  function Get(env: Env, f: FlagName): nat { Ev(Temp(Flag(f), 1), env) }

  lemma {:induction false} GetSet(env: Env, f: FlagName, g: FlagName, v: nat)
    requires v <= 1
    ensures Get(env[Flag(f) := v], g) == if f == g then v else Get(env, g)
  {
    SmallPowers();
  }

  /** The six x86 flags. */
  datatype X86 = X86(cf: bool, pf: bool, af: bool, zf: bool, sf: bool, of: bool)

  function X86FlagsOf(env: Env): X86 {
    X86(Get(env, CF) == 1, Get(env, PF) == 1, Get(env, AF) == 1, Get(env, ZF) == 1, Get(env, SF) == 1,
        Get(env, OF) == 1)
  }

  /** The flags of an addition or subtraction of w-bit operands, from the exact
      unsigned result, the exact signed result, and the exact result on the low four
      bits. */
  function Arithmetic(w: nat, exact: int, signed: int, nibble: int): X86
    requires w >= 1
  {
    var res := LowPart(exact, w);
    X86(!InUnsigned(w, exact), EvenParity(res), !(0 <= nibble < 16), res == 0, Negative(w, res), !InSigned(w, signed))
  }

  /** What the formulas of an addition compute, where r is the truncated result. */
  function AddBits(w: nat, a: nat, b: nat, c: nat, r: nat): X86
    requires w >= 1
  {
    X86(if c == 1 then r <= a else r < a, EvenParity(r), Bit(Xor(r, Xor(a, b)), 4) == 1, r == 0,
        Negative(w, r), Negative(w, a) == Negative(w, b) && Negative(w, a) != Negative(w, r))
  }

  /** The same for a subtraction, with the two formulas for overflow. */
  function SubBits(w: nat, a: nat, b: nat, c: nat, r: nat): X86
    requires w >= 1
  {
    X86(if c == 1 then a <= b else a < b, EvenParity(r), Bit(Xor(r, Xor(a, b)), 4) == 1, r == 0,
        Negative(w, r), Negative(w, a) != Negative(w, b) && Negative(w, a) != Negative(w, r))
  }

  function SubBitsSigned(w: nat, a: nat, b: nat, c: nat, r: nat): X86
    requires w >= 1
  {
    SubBits(w, a, b, c, r).(of :=
      Negative(w, r) != if c == 1 then Signed(w, a) <= Signed(w, b) else Signed(w, a) < Signed(w, b))
  }

  lemma {:induction false} AddBitsMean(w: nat, a: nat, b: nat, c: nat)
    requires w >= 8 && a < Pow2(w) && b < Pow2(w) && c <= 1
    ensures AddBits(w, a, b, c, LowPart(a + b + c, w))
         == Arithmetic(w, a + b + c, Signed(w, a) + Signed(w, b) + c, a % 16 + b % 16 + c)
  {
    var r := LowPart(a + b + c, w);
    LowPartIs(a + b + c, w);
    AddCarry(w, a, b, c, a + b + c, r);
    AddOverflow(w, a, b, c, r, Signed(w, a) + Signed(w, b) + c);
    AuxiliaryCarry(w, a, b, c, r, a % 16 + b % 16 + c);
  }

  lemma {:induction false} SubBitsMean(w: nat, a: nat, b: nat, c: nat)
    requires w >= 8 && a < Pow2(w) && b < Pow2(w) && c <= 1
    ensures var f := Arithmetic(w, a - b - c, Signed(w, a) - Signed(w, b) - c, a % 16 - b % 16 - c);
      SubBits(w, a, b, c, LowPart(a - b - c, w)) == f && SubBitsSigned(w, a, b, c, LowPart(a - b - c, w)) == f
  {
    var r := LowPart(a - b - c, w);
    LowPartIs(a - b - c, w);
    SubOverflow(w, a, b, c, r, Signed(w, a) - Signed(w, b) - c);
    AuxiliaryBorrow(w, a, b, c, r, a % 16 - b % 16 - c);
  }

  /** The flags that an addition with carry in, or a subtraction with borrow in, is
      defined to leave. */
  function AddFlags(w: nat, a: nat, b: nat, c: nat): X86
    requires w >= 1
  {
    Arithmetic(w, a + b + c, Signed(w, a) + Signed(w, b) + c, a % 16 + b % 16 + c)
  }

  function SubFlags(w: nat, a: nat, b: nat, c: nat): X86
    requires w >= 1
  {
    Arithmetic(w, a - b - c, Signed(w, a) - Signed(w, b) - c, a % 16 - b % 16 - c)
  }

  lemma {:induction false} AddMeaning(f: X86, w: nat, a: nat, b: nat, c: nat)
    requires w >= 8 && a < Pow2(w) && b < Pow2(w) && c <= 1 && f == AddBits(w, a, b, c, LowPart(a + b + c, w))
    ensures f == AddFlags(w, a, b, c)
  {
    AddBitsMean(w, a, b, c);
  }

  lemma {:induction false} SubMeaning(f: X86, w: nat, a: nat, b: nat, c: nat)
    requires w >= 8 && a < Pow2(w) && b < Pow2(w) && c <= 1 && f == SubBits(w, a, b, c, LowPart(a - b - c, w))
    ensures f == SubFlags(w, a, b, c)
  {
    SubBitsMean(w, a, b, c);
  }

  lemma {:induction false} SubMeaningSigned(f: X86, w: nat, a: nat, b: nat, c: nat)
    requires w >= 8 && a < Pow2(w) && b < Pow2(w) && c <= 1 && f == SubBitsSigned(w, a, b, c, LowPart(a - b - c, w))
    ensures f == SubFlags(w, a, b, c)
  {
    SubBitsMean(w, a, b, c);
  }

  /** The four ARM flags; a subtraction sets the carry when there is no borrow. */
  datatype Arm = Arm(nf: bool, zf: bool, cf: bool, vf: bool)

  function ArmFlagsOf(env: Env): Arm {
    Arm(Get(env, NF) == 1, Get(env, ZF) == 1, Get(env, CF) == 1, Get(env, VF) == 1)
  }

  function ArmArithmetic(exact: int, carry: bool, signed: int): Arm {
    var res := LowPart(exact, 32);
    Arm(Negative(32, res), res == 0, carry, !InSigned(32, signed))
  }

  /** An operand as VEX supplies it: a machine word holding a zero-extended w-bit
      value. */
  ghost predicate Operand(e: Exp, machine: nat, w: nat, env: Env) {
    Typed(e) && Width(e) == machine && InputsOnly(e) && Ev(e, env) < Pow2(w)
  }

  // ----- emitting statements -----

  lemma {:induction false} LocalsKeepInputs(env: Env, v: Var, x: nat)
    requires !v.Input?
    ensures SameInputs(env, env[v := x])
  {
  }

  lemma {:induction false} SameInputsTrans(a: Env, b: Env, c: Env)
    requires SameInputs(a, b) && SameInputs(b, c)
    ensures SameInputs(a, c)
  {
    forall n: nat ensures (Input(n) in a <==> Input(n) in c) && (Input(n) in a ==> a[Input(n)] == c[Input(n)]) {
      assert Input(n) in a <==> Input(n) in b;
    }
  }

  /** push_back(new Move(v, rhs)), with the environment that running it leads to. */
  method Push(irout: seq<Stmt>, v: Var, rhs: Exp, ghost env: Env, ghost e: Env) returns (out: seq<Stmt>, ghost e': Env)
    requires Exec(irout, env) == e && SameInputs(env, e) && !v.Input?
    ensures out == irout + [Move(v, rhs)] && Exec(out, env) == e' && e' == e[v := Ev(rhs, e)]
    ensures SameInputs(env, e')
  {
    out := irout + [Move(v, rhs)];
    ExecPush(irout, Move(v, rhs), env);
    e' := e[v := Ev(rhs, e)];
    LocalsKeepInputs(e, v, Ev(rhs, e));
    SameInputsTrans(env, e, e');
  }

  // ----- formulas that do not read flags -----

  predicate FlagFree(e: Exp) {
    match e
    case Constant(_, _) => true
    case Temp(id, _) => !id.Flag?
    case BinOp(_, lhs, rhs) => FlagFree(lhs) && FlagFree(rhs)
    case Not(exp) => FlagFree(exp)
    case Cast(exp, _, _) => FlagFree(exp)
    case Ite(cond, trueE, falseE) => FlagFree(cond) && FlagFree(trueE) && FlagFree(falseE)
  }

  lemma {:induction false} InputsAreFlagFree(e: Exp)
    requires InputsOnly(e)
    ensures FlagFree(e)
  {
    match e
    case Constant(_, _) =>
    case Temp(_, _) =>
    case BinOp(_, lhs, rhs) => InputsAreFlagFree(lhs); InputsAreFlagFree(rhs);
    case Not(exp) => InputsAreFlagFree(exp);
    case Cast(exp, _, _) => InputsAreFlagFree(exp);
    case Ite(cond, trueE, falseE) =>
      InputsAreFlagFree(cond);
      InputsAreFlagFree(trueE);
      InputsAreFlagFree(falseE);
  }

  ghost predicate SameOthers(e: Env, e': Env) {
    forall v: Var :: !v.Flag? ==> (v in e <==> v in e') && (v in e ==> e[v] == e'[v])
  }

  lemma {:induction false} FlagsKeep(x: Exp, e: Env, e': Env)
    requires FlagFree(x) && SameOthers(e, e')
    ensures Ev(x, e) == Ev(x, e')
  {
    match x
    case Constant(_, _) =>
    case Temp(id, _) =>
    case BinOp(_, lhs, rhs) => FlagsKeep(lhs, e, e'); FlagsKeep(rhs, e, e');
    case Not(exp) => FlagsKeep(exp, e, e');
    case Cast(exp, _, _) => FlagsKeep(exp, e, e');
    case Ite(cond, trueE, falseE) =>
      FlagsKeep(cond, e, e');
      FlagsKeep(trueE, e, e');
      FlagsKeep(falseE, e, e');
  }

  /** What flag g holds after flag has been assigned f, in e, where the formulas refer
      to the environment e0 before the first assignment. */
  function Assigned(flag: FlagName, f: Exp, conditional: bool, cond: Exp, e0: Env, e: Env, g: FlagName): nat {
    if g != flag || (conditional && Ev(cond, e0) == 0) then Get(e, g) else Ev(f, e0)
  }

  function GuardedFlag(flag: FlagName, f: Exp, conditional: bool, cond: Exp): Exp {
    if conditional then Ite(cond, f, Temp(Flag(flag), 1)) else f
  }

  lemma {:induction false} EvGuarded(flag: FlagName, f: Exp, conditional: bool, cond: Exp, e0: Env, e: Env)
    requires FlagFree(f) && FlagFree(cond) && SameOthers(e0, e)
    ensures Ev(GuardedFlag(flag, f, conditional, cond), e) == Assigned(flag, f, conditional, cond, e0, e, flag)
  {
    FlagsKeep(f, e0, e);
    FlagsKeep(cond, e0, e);
    EvIte(cond, f, Temp(Flag(flag), 1), e);
  }

  /** new_ir.push_back(new Move(flag, f)), or under a condition the old flag stays. */
  method AssignFlag(newIr: seq<Stmt>, flag: FlagName, f: Exp, conditional: bool, cond: Exp, ghost env: Env,
          ghost e0: Env, ghost e: Env)
      returns (out: seq<Stmt>, ghost e': Env)
    requires Exec(newIr, env) == e && SameInputs(env, e) && SameOthers(e0, e)
    requires FlagFree(f) && FlagFree(cond) && Ev(f, e0) <= 1
    ensures Exec(out, env) == e' && SameInputs(env, e') && SameOthers(e0, e')
    ensures forall g :: Get(e', g) == Assigned(flag, f, conditional, cond, e0, e, g)
  {
    var rhs := GuardedFlag(flag, f, conditional, cond);
    EvGuarded(flag, f, conditional, cond, e0, e);
    FlagFits(e, flag);
    out, e' := Push(newIr, Flag(flag), rhs, env, e);
    forall g ensures Get(e', g) == Assigned(flag, f, conditional, cond, e0, e, g) {
      GetSet(e, flag, g, Ev(rhs, e));
    }
  }

  lemma {:induction false} FlagFits(e: Env, f: FlagName)
    ensures Get(e, f) <= 1
  {
    EvFits(Temp(Flag(f), 1), e);
    SmallPowers();
  }

  lemma {:induction false} BinOpFree(op: BinopType, a: Exp, b: Exp)
    requires FlagFree(a) && FlagFree(b)
    ensures FlagFree(BinOp(op, a, b))
  {
  }

  /** The operations on single bits. */
  lemma {:induction false} AndBits(b: nat, c: nat)
    requires b <= 1 && c <= 1
    ensures And(b, c) == if b == 1 && c == 1 then 1 else 0
  {
    AndUnfolds(b, c);
    AndZeroLeft(c / 2);
  }

  lemma {:induction false} AndZeroLeft(c: nat)
    ensures And(0, c) == 0
  {
  }

  lemma {:induction false} OpsZero(x: nat, y: nat)
    requires x == 0 && y == 0
    ensures Xor(x, y) == 0 && Or(x, y) == 0
  {
  }

  lemma {:induction false} XorBits(b: nat, c: nat)
    requires b <= 1 && c <= 1
    ensures Xor(b, c) == if b == c then 0 else 1
  {
    XorUnfolds(b, c);
    OpsZero(b / 2, c / 2);
  }

  lemma {:induction false} OrBits(b: nat, c: nat)
    requires b <= 1 && c <= 1
    ensures Or(b, c) == if b == 1 || c == 1 then 1 else 0
  {
    OrUnfolds(b, c);
    OpsZero(b / 2, c / 2);
  }

  lemma {:induction false} TruthOps(p: bool, q: bool)
    ensures And(Truth(p), Truth(q)) == Truth(p && q) && Xor(Truth(p), Truth(q)) == Truth(p != q)
    ensures Or(Truth(p), Truth(q)) == Truth(p || q)
  {
    AndBits(Truth(p), Truth(q));
    XorBits(Truth(p), Truth(q));
    OrBits(Truth(p), Truth(q));
  }

  lemma {:induction false} LowPlus(x: int, y: int, m: nat)
    ensures LowPart(LowPart(x, m) + y, m) == LowPart(x + y, m)
  {
    hide LowPart, Pow2;
    LowPartIs(x, m);
    LowPartIs(LowPart(x, m) + y, m);
    LowPartIs(x + y, m);
    ModAddLeft(x, y, Pow2(m));
  }

  lemma {:induction false} LowMinus(x: int, y: int, m: nat)
    ensures LowPart(LowPart(x, m) - y, m) == LowPart(x - y, m)
  {
    hide LowPart, Pow2;
    LowPartIs(x, m);
    LowPartIs(LowPart(x, m) - y, m);
    LowPartIs(x - y, m);
    ModSubRight(x, y, Pow2(m));
  }

  lemma {:induction false} EvPlusLow(a: Exp, b: Exp, env: Env, x: int, m: nat)
    requires Width(a) == m && Ev(a, env) == LowPart(x, m)
    ensures Ev(BinOp(PLUS, a, b), env) == LowPart(x + Ev(b, env), m)
  {
    hide Ev, EvBinOp, LowPart, Pow2;
    EvPlus(a, b, env);
    LowPlus(x, Ev(b, env), m);
  }

  lemma {:induction false} EvMinusLow(a: Exp, b: Exp, env: Env, x: int, m: nat)
    requires Width(a) == m && Ev(a, env) == LowPart(x, m)
    ensures Ev(BinOp(MINUS, a, b), env) == LowPart(x - Ev(b, env), m)
  {
    hide Ev, EvBinOp, LowPart, Pow2;
    EvMinus(a, b, env);
    LowMinus(x, Ev(b, env), m);
  }

  lemma {:induction false} EvSum(arg1: Exp, addend: Exp, carry: Exp, env: Env, m: nat)
    requires Width(arg1) == m
    ensures Ev(BinOp(PLUS, BinOp(PLUS, arg1, addend), carry), env)
         == LowPart(Ev(arg1, env) + Ev(addend, env) + Ev(carry, env), m)
  {
    hide Ev, EvBinOp, LowPart, Pow2;
    EvPlus(arg1, addend, env);
    EvPlusLow(BinOp(PLUS, arg1, addend), carry, env, Ev(arg1, env) + Ev(addend, env), m);
  }

  lemma {:induction false} EvDifference(arg1: Exp, subtrahend: Exp, borrow: Exp, env: Env, m: nat)
    requires Width(arg1) == m
    ensures Ev(BinOp(MINUS, BinOp(MINUS, arg1, subtrahend), borrow), env)
         == LowPart(Ev(arg1, env) - Ev(subtrahend, env) - Ev(borrow, env), m)
  {
    hide Ev, EvBinOp, LowPart, Pow2;
    EvMinus(arg1, subtrahend, env);
    EvMinusLow(BinOp(MINUS, arg1, subtrahend), borrow, env, Ev(arg1, env) - Ev(subtrahend, env), m);
  }
}
