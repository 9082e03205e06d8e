/** The part of libasmir's Exp language (exp.h, exp.cpp) that the flag formulas are
    built from, with an evaluator: words of any width as numbers below 2^width. */
module FlagExprs {
  import opened Arith
  import opened Powers
  import opened Bits

  datatype FlagName = CF | PF | AF | ZF | SF | OF | NF | VF

  /** Flag registers, temporaries that a translation makes, and everything else. */
  datatype Var = Flag(name: FlagName) | Local(n: nat) | Input(n: nat)

  datatype BinopType =
    | PLUS | MINUS | MOD | LSHIFT | RSHIFT | BITAND | BITOR | XOR
    | EQ | NEQ | GT | LT | GE | LE | SLT | SLE

  datatype CastType = CAST_UNSIGNED | CAST_HIGH | CAST_LOW

  datatype Exp =
    | Constant(typ: nat, val: nat)
    | Temp(id: Var, typ: nat)
    | BinOp(op: BinopType, lhs: Exp, rhs: Exp)
    | Not(exp: Exp)
    | Cast(exp: Exp, typ: nat, kind: CastType)
    | Ite(cond: Exp, trueE: Exp, falseE: Exp)

  predicate Comparison(op: BinopType) {
    op == EQ || op == NEQ || op == GT || op == LT || op == GE || op == LE || op == SLT || op == SLE
  }

  function Width(e: Exp): nat {
    match e
    case Constant(typ, _) => typ
    case Temp(_, typ) => typ
    case BinOp(op, lhs, _) => if Comparison(op) then 1 else Width(lhs)
    case Not(exp) => Width(exp)
    case Cast(_, typ, _) => typ
    case Ite(_, trueE, _) => Width(trueE)
  }

  predicate Shift(op: BinopType) { op == LSHIFT || op == RSHIFT }

  predicate Typed(e: Exp) {
    match e
    case Constant(typ, val) => typ >= 1 && val < Pow2(typ)
    case Temp(_, typ) => typ >= 1
    case BinOp(op, lhs, rhs) =>
      Typed(lhs) && Typed(rhs) && (Shift(op) || Width(lhs) == Width(rhs)) && Width(lhs) >= 1
    case Not(exp) => Typed(exp) && Width(exp) >= 1
    case Cast(exp, typ, kind) =>
      Typed(exp) && 1 <= typ && (if kind == CAST_UNSIGNED then Width(exp) <= typ else typ <= Width(exp))
    case Ite(cond, trueE, falseE) =>
      Typed(cond) && Width(cond) == 1 && Typed(trueE) && Typed(falseE) && Width(trueE) == Width(falseE)
  }

  type Env = map<Var, nat>

  function Truth(b: bool): nat { if b then 1 else 0 }

  /** Two's complement. */
  function Signed(w: nat, v: nat): int
    requires w >= 1
  {
    if v >= Pow2(w - 1) then v - Pow2(w) else v
  }

  function Apply(op: BinopType, w: nat, x: nat, y: nat): nat {
    match op
    case PLUS => LowPart(x + y, w)
    case MINUS => LowPart(x - y, w)
    case MOD => Modulo(x, y)
    case LSHIFT => if y < w then LowPart(ShiftedLeft(x, y), w) else 0
    case RSHIFT => if y < w then ShiftedRight(x, y) else 0
    case BITAND => And(x, y)
    case BITOR => Or(x, y)
    case XOR => Xor(x, y)
    case EQ => Truth(x == y)
    case NEQ => Truth(x != y)
    case GT => Truth(x > y)
    case LT => Truth(x < y)
    case GE => Truth(x >= y)
    case LE => Truth(x <= y)
    case SLT => if w == 0 then 0 else Truth(Signed(w, x) < Signed(w, y))
    case SLE => if w == 0 then 0 else Truth(Signed(w, x) <= Signed(w, y))
  }

  function ApplyCast(kind: CastType, from: nat, to: nat, x: nat): nat {
    match kind
    case CAST_UNSIGNED => x
    case CAST_LOW => LowPart(x, to)
    case CAST_HIGH => if to <= from then ShiftedRight(x, from - to) else 0
  }

  function Ev(e: Exp, env: Env): nat
    decreases e, 1
  {
    match e
    case Constant(_, val) => val
    case Temp(id, typ) => if id in env then LowPart(env[id], typ) else 0
    case BinOp(op, lhs, rhs) => EvBinOp(e, env)
    case Not(exp) => EvUnOp(e, env)
    case Cast(exp, typ, kind) => EvUnOp(e, env)
    case Ite(cond, trueE, falseE) => if Ev(cond, env) != 0 then Ev(trueE, env) else Ev(falseE, env)
  }

  function EvBinOp(e: Exp, env: Env): nat
    requires e.BinOp?
    decreases e, 0
  {
    Apply(e.op, Width(e.lhs), Ev(e.lhs, env), Ev(e.rhs, env))
  }

  function EvUnOp(e: Exp, env: Env): nat
    requires e.Not? || e.Cast?
    decreases e, 0
  {
    if e.Not? then LowPart(0 - 1 - Ev(e.exp, env), Width(e.exp))
    else ApplyCast(e.kind, Width(e.exp), e.typ, Ev(e.exp, env))
  }

  // ----- values fit -----

  lemma {:induction false} ShiftFits(x: nat, y: nat, w: nat)
    requires x < Pow2(w)
    ensures ShiftedRight(x, y) < Pow2(w)
  {
    hide Pow2, ShiftedRight;
    ShiftedRightIs(x, y);
    FloorSmall(x, Pow2(y));
  }

  lemma {:induction false} FloorSmall(x: nat, q: nat)
    requires q > 0
    ensures x / q <= x
  {
    assert x == x / q * q + x % q;
    MulMonoRight(x / q, 1, q);
  }

  lemma {:induction false} ModuloFits(x: nat, y: nat)
    ensures Modulo(x, y) <= x
  {
    if y > 0 && x >= y { ModuloFits(x - y, y); }
  }

  lemma {:induction false} ApplyFits(op: BinopType, w: nat, x: nat, y: nat)
    requires w >= 1 && x < Pow2(w) && (Shift(op) || y < Pow2(w))
    ensures Apply(op, w, x, y) < if Comparison(op) then 2 else Pow2(w)
  {
    hide Pow2, LowPart, Xor, And, Or;
    match op
    case PLUS => LowPartFits(x + y, w);
    case MINUS => LowPartFits(x - y, w);
    case LSHIFT => LowPartFits(ShiftedLeft(x, y), w);
    case BITAND => OpsFit(x, y, w);
    case BITOR => OpsFit(x, y, w);
    case XOR => OpsFit(x, y, w);
    case RSHIFT => ShiftFits(x, y, w);
    case MOD => ModuloFits(x, y);
    case _ =>
  }

  lemma {:induction false} HighFits(x: nat, from: nat, to: nat)
    requires to <= from && x < Pow2(from)
    ensures ShiftedRight(x, from - to) < Pow2(to)
  {
    hide Pow2, ShiftedRight;
    ShiftedRightIs(x, from - to);
    Pow2Add(to, from - to);
    if x / Pow2(from - to) >= Pow2(to) {
      MulMono(Pow2(to), x / Pow2(from - to), Pow2(from - to));
    }
  }

  lemma {:induction false} EvFits(e: Exp, env: Env)
    requires Typed(e)
    ensures Ev(e, env) < Pow2(Width(e))
  {
    match e
    case Constant(_, _) =>
    case Temp(id, typ) => LowPartFits(if id in env then env[id] else 0, typ);
    case BinOp(op, lhs, rhs) =>
      EvFits(lhs, env);
      EvFits(rhs, env);
      SmallPowers();
      ApplyFits(op, Width(lhs), Ev(lhs, env), Ev(rhs, env));
    case Not(exp) => LowPartFits(0 - 1 - Ev(exp, env), Width(exp));
    case Cast(exp, typ, kind) =>
      EvFits(exp, env);
      LowPartFits(Ev(exp, env), typ);
      if kind == CAST_UNSIGNED { Pow2Mono(Width(exp), typ); }
      if kind == CAST_HIGH { HighFits(Ev(exp, env), Width(exp), typ); }
    case Ite(cond, trueE, falseE) =>
      EvFits(trueE, env);
      EvFits(falseE, env);
  }

  // ----- one operator at a time -----

  lemma {:induction false} EvPlus(a: Exp, b: Exp, env: Env)
    ensures Ev(BinOp(PLUS, a, b), env) == LowPart(Ev(a, env) + Ev(b, env), Width(a))
  {
    hide LowPart, Pow2, And, Or, Xor, Modulo, ShiftedLeft, ShiftedRight;
  }

  lemma {:induction false} EvMinus(a: Exp, b: Exp, env: Env)
    ensures Ev(BinOp(MINUS, a, b), env) == LowPart(Ev(a, env) - Ev(b, env), Width(a))
  {
    hide LowPart, Pow2, And, Or, Xor, Modulo, ShiftedLeft, ShiftedRight;
  }

  lemma {:induction false} EvMod(a: Exp, b: Exp, env: Env)
    ensures Ev(BinOp(MOD, a, b), env) == Modulo(Ev(a, env), Ev(b, env))
  {
    hide LowPart, Pow2, And, Or, Xor, Modulo, ShiftedLeft, ShiftedRight;
  }

  lemma {:induction false} EvShl(a: Exp, b: Exp, env: Env)
    ensures Ev(BinOp(LSHIFT, a, b), env) == Apply(LSHIFT, Width(a), Ev(a, env), Ev(b, env))
  {
    hide LowPart, Pow2, And, Or, Xor, Modulo, ShiftedLeft, ShiftedRight;
  }

  lemma {:induction false} EvShrOp(a: Exp, b: Exp, env: Env)
    ensures Ev(BinOp(RSHIFT, a, b), env) == Apply(RSHIFT, Width(a), Ev(a, env), Ev(b, env))
  {
    hide LowPart, Pow2, And, Or, Xor, Modulo, ShiftedLeft, ShiftedRight;
  }

  lemma {:induction false} EvAnd(a: Exp, b: Exp, env: Env)
    ensures Ev(BinOp(BITAND, a, b), env) == And(Ev(a, env), Ev(b, env))
  {
    hide LowPart, Pow2, And, Or, Xor, Modulo, ShiftedLeft, ShiftedRight;
  }

  lemma {:induction false} EvOr(a: Exp, b: Exp, env: Env)
    ensures Ev(BinOp(BITOR, a, b), env) == Or(Ev(a, env), Ev(b, env))
  {
    hide LowPart, Pow2, And, Or, Xor, Modulo, ShiftedLeft, ShiftedRight;
  }

  lemma {:induction false} EvXor(a: Exp, b: Exp, env: Env)
    ensures Ev(BinOp(XOR, a, b), env) == Xor(Ev(a, env), Ev(b, env))
  {
    hide LowPart, Pow2, And, Or, Xor, Modulo, ShiftedLeft, ShiftedRight;
  }

  lemma {:induction false} EvEqual(a: Exp, b: Exp, env: Env)
    ensures Ev(BinOp(EQ, a, b), env) == Truth(Ev(a, env) == Ev(b, env))
    ensures Ev(BinOp(NEQ, a, b), env) == Truth(Ev(a, env) != Ev(b, env))
  {
    hide LowPart, Pow2, And, Or, Xor, Modulo, ShiftedLeft, ShiftedRight;
  }

  lemma {:induction false} EvOrder(a: Exp, b: Exp, env: Env)
    ensures Ev(BinOp(LT, a, b), env) == Truth(Ev(a, env) < Ev(b, env))
    ensures Ev(BinOp(LE, a, b), env) == Truth(Ev(a, env) <= Ev(b, env))
    ensures Ev(BinOp(GT, a, b), env) == Truth(Ev(a, env) > Ev(b, env))
    ensures Ev(BinOp(GE, a, b), env) == Truth(Ev(a, env) >= Ev(b, env))
  {
    hide LowPart, Pow2, And, Or, Xor, Modulo, ShiftedLeft, ShiftedRight;
  }

  lemma {:induction false} EvSigned(a: Exp, b: Exp, env: Env, w: nat)
    requires w >= 1 && Width(a) == w
    ensures Ev(BinOp(SLT, a, b), env) == Truth(Signed(w, Ev(a, env)) < Signed(w, Ev(b, env)))
    ensures Ev(BinOp(SLE, a, b), env) == Truth(Signed(w, Ev(a, env)) <= Signed(w, Ev(b, env)))
  {
    hide LowPart, Pow2, And, Or, Xor, Modulo, ShiftedLeft, ShiftedRight;
  }

  lemma {:induction false} EvNot(a: Exp, env: Env)
    ensures Ev(Not(a), env) == LowPart(0 - 1 - Ev(a, env), Width(a))
  {
    hide LowPart, Pow2, And, Or, Xor, Modulo, ShiftedLeft, ShiftedRight;
  }

  lemma {:induction false} EvCast(a: Exp, typ: nat, env: Env)
    ensures Ev(Cast(a, typ, CAST_LOW), env) == LowPart(Ev(a, env), typ)
    ensures Ev(Cast(a, typ, CAST_UNSIGNED), env) == Ev(a, env)
    ensures typ <= Width(a) ==> Ev(Cast(a, typ, CAST_HIGH), env) == ShiftedRight(Ev(a, env), Width(a) - typ)
  {
    hide LowPart, Pow2, And, Or, Xor, Modulo, ShiftedLeft, ShiftedRight;
  }

  lemma {:induction false} EvIte(c: Exp, p: Exp, q: Exp, env: Env)
    ensures Ev(Ite(c, p, q), env) == if Ev(c, env) != 0 then Ev(p, env) else Ev(q, env)
  {
    hide LowPart, Pow2, And, Or, Xor, Modulo, ShiftedLeft, ShiftedRight;
  }

  lemma {:induction false} EvLocal(n: nat, typ: nat, env: Env, v: nat)
    requires Local(n) in env && env[Local(n)] == v && v < Pow2(typ)
    ensures Ev(Temp(Local(n), typ), env) == v
  {
    LowPartSmall(v, typ);
  }

  lemma {:induction false} EvConstant(typ: nat, val: nat, env: Env)
    ensures Ev(Constant(typ, val), env) == val
  {
    hide LowPart, Pow2, And, Or, Xor, Modulo, ShiftedLeft, ShiftedRight;
  }

  // ----- statements -----

  datatype Stmt = Move(lhs: Var, rhs: Exp)

  function Assign(s: Stmt, env: Env): Env { env[s.lhs := Ev(s.rhs, env)] }

  /** Running a vector of moves from the front. */
  function Exec(p: seq<Stmt>, env: Env): Env
    decreases |p|
  {
    if p == [] then env else Assign(p[|p| - 1], Exec(p[..|p| - 1], env))
  }

  lemma {:induction false} ExecPush(p: seq<Stmt>, s: Stmt, env: Env)
    ensures Exec(p + [s], env) == Assign(s, Exec(p, env))
  {
    assert (p + [s])[..|p|] == p;
  }

  // ----- operands -----

  /** Mentions only variables that a translation does not assign. */
  predicate InputsOnly(e: Exp) {
    match e
    case Constant(_, _) => true
    case Temp(id, _) => id.Input?
    case BinOp(_, lhs, rhs) => InputsOnly(lhs) && InputsOnly(rhs)
    case Not(exp) => InputsOnly(exp)
    case Cast(exp, _, _) => InputsOnly(exp)
    case Ite(cond, trueE, falseE) => InputsOnly(cond) && InputsOnly(trueE) && InputsOnly(falseE)
  }

  ghost predicate SameInputs(env: Env, env': Env) {
    forall n: nat :: (Input(n) in env <==> Input(n) in env') && (Input(n) in env ==> env[Input(n)] == env'[Input(n)])
  }

  lemma {:induction false} InputsKeep(e: Exp, env: Env, env': Env)
    requires InputsOnly(e) && SameInputs(env, env')
    ensures Ev(e, env) == Ev(e, env')
  {
    match e
    case Constant(_, _) =>
    case Temp(id, _) => assert id == Input(id.n);
    case BinOp(_, lhs, rhs) => InputsKeep(lhs, env, env'); InputsKeep(rhs, env, env');
    case Not(exp) => InputsKeep(exp, env, env');
    case Cast(exp, _, _) => InputsKeep(exp, env, env');
    case Ite(cond, trueE, falseE) =>
      InputsKeep(cond, env, env');
      InputsKeep(trueE, env, env');
      InputsKeep(falseE, env, env');
  }
}
