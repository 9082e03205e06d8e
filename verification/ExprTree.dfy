/** The expression trees of libasmir/src/ir/exp.cpp as values: their meaning
    modulo a power of two, the rewrite rules of const_simplify_exp.cpp as partial
    functions on trees, and what a step of rewriting keeps and decreases. */
module ExprTree {

  datatype Option<+T> = None | Some(value: T)

  const TWO64: int := 0x1_0000_0000_0000_0000

  type u64 = v: int | 0 <= v < TWO64

  datatype RegT = REG_1 | REG_8 | REG_16 | REG_32 | REG_64

  /** The 25 operators of binop_type_t; the rules tell only three of them apart. */
  datatype BinopType = PLUS | MINUS | TIMES | OTHER(index: nat)

  /** A node that is neither a constant nor a binary operation (a temporary, a
      memory cell, a cast, ...) is a Leaf: no rule looks inside it. */
  datatype Tree =
    | Const(typ: RegT, val: u64)
    | Leaf(name: string)
    | Bin(op: BinopType, lhs: Tree, rhs: Tree)

  // ----- constants -----

  function RegToBits(t: RegT): nat {
    match t
    case REG_1 => 1
    case REG_8 => 8
    case REG_16 => 16
    case REG_32 => 32
    case REG_64 => 64
  }

  function Modulus(t: RegT): (m: nat)
    ensures m > 0
  {
    match t
    case REG_1 => 2
    case REG_8 => 0x100
    case REG_16 => 0x1_0000
    case REG_32 => 0x1_0000_0000
    case REG_64 => TWO64
  }

  /** Exp::cast_value: truncation, except that REG_1 saturates to 0 or 1. */
  function CastValue(t: RegT, v: u64): u64 {
    match t
    case REG_1 => if v == 0 then 0 else 1
    case REG_8 => v % 0x100
    case REG_16 => v % 0x1_0000
    case REG_32 => v % 0x1_0000_0000
    case REG_64 => v
  }

  function RetType(t1: RegT, t2: RegT): RegT {
    if RegToBits(t1) > RegToBits(t2) then t1 else t2
  }

  function AddConstant(a: u64, b: u64, t: RegT): Tree { Const(t, CastValue(t, (a + b) % TWO64)) }
  function SubConstant(a: u64, b: u64, t: RegT): Tree { Const(t, CastValue(t, (a - b) % TWO64)) }
  function MulConstant(a: u64, b: u64, t: RegT): Tree { Const(t, CastValue(t, (a * b) % TWO64)) }

  // ----- meaning -----

  /** What a tree can mention but the simplifier does not interpret: leaves, and
      the binary operators other than +, - and *. */
  datatype Env = Env(leaf: string -> int, binop: (BinopType, int, int) -> int)

  function Ev(t: Tree, env: Env, m: nat): (v: int)
    requires m > 0
    ensures 0 <= v < m
  {
    match t
    case Const(_, val) => val % m
    case Leaf(name) => env.leaf(name) % m
    case Bin(PLUS, l, r) => (Ev(l, env, m) + Ev(r, env, m)) % m
    case Bin(MINUS, l, r) => (Ev(l, env, m) - Ev(r, env, m)) % m
    case Bin(TIMES, l, r) => (Ev(l, env, m) * Ev(r, env, m)) % m
    case Bin(op, l, r) => env.binop(op, Ev(l, env, m), Ev(r, env, m)) % m
  }

  /** Every constant carries the same register type. */
  ghost predicate Typed(t: Tree, w: RegT) {
    match t
    case Const(typ, _) => typ == w
    case Leaf(_) => true
    case Bin(_, l, r) => Typed(l, w) && Typed(r, w)
  }

  // ----- the rules -----

  predicate IsBin(t: Tree, op: BinopType) { t.Bin? && t.op == op }

  function R1R3R5(t: Tree): Option<Tree> {
    if !t.Bin? || !t.lhs.Const? || !t.rhs.Const? then None else
    var rt := RetType(t.lhs.typ, t.rhs.typ);
    match t.op
    case PLUS => Some(AddConstant(t.lhs.val, t.rhs.val, rt))
    case TIMES => Some(MulConstant(t.lhs.val, t.rhs.val, rt))
    case MINUS => Some(SubConstant(t.lhs.val, t.rhs.val, rt))
    case _ => None
  }

  function R2R4R6(t: Tree): Option<Tree> {
    if !t.Bin? || t.lhs.Const? || !t.rhs.Const? then None else
    match t.op
    case PLUS => Some(Bin(PLUS, t.rhs, t.lhs))
    case TIMES => Some(Bin(TIMES, t.rhs, t.lhs))
    case MINUS => Some(Bin(PLUS, Const(t.rhs.typ, (0 - t.rhs.val) % TWO64), t.lhs))
    case _ => None
  }

  function R7(t: Tree): Option<Tree> {
    if IsBin(t, PLUS) && IsBin(t.rhs, PLUS)
    then Some(Bin(PLUS, Bin(PLUS, t.lhs, t.rhs.lhs), t.rhs.rhs)) else None
  }

  function R8(t: Tree): Option<Tree> {
    if IsBin(t, TIMES) && IsBin(t.rhs, TIMES)
    then Some(Bin(TIMES, Bin(TIMES, t.lhs, t.rhs.lhs), t.rhs.rhs)) else None
  }

  function R12(t: Tree): Option<Tree> {
    if IsBin(t, TIMES) && t.lhs.Const? && IsBin(t.rhs, PLUS) && t.rhs.lhs.Const? then
      var c1, c2 := t.lhs, t.rhs.lhs;
      Some(Bin(PLUS, MulConstant(c1.val, c2.val, RetType(c1.typ, c2.typ)), Bin(TIMES, c1, t.rhs.rhs)))
    else None
  }

  function R14(t: Tree): Option<Tree> {
    if IsBin(t, TIMES) && t.lhs.Const? && IsBin(t.rhs, PLUS)
    then Some(Bin(PLUS, Bin(TIMES, t.lhs, t.rhs.lhs), Bin(TIMES, t.lhs, t.rhs.rhs))) else None
  }

  function R16(t: Tree): Option<Tree> {
    if IsBin(t, TIMES) && t.lhs.Const? && IsBin(t.rhs, MINUS)
    then Some(Bin(MINUS, Bin(TIMES, t.lhs, t.rhs.lhs), Bin(TIMES, t.rhs.rhs, t.lhs))) else None
  }

  function R17(t: Tree): Option<Tree> {
    if IsBin(t, TIMES) && IsBin(t.lhs, PLUS)
    then Some(Bin(PLUS, Bin(TIMES, t.lhs.lhs, t.rhs), Bin(TIMES, t.lhs.rhs, t.rhs))) else None
  }

  function R18(t: Tree): Option<Tree> {
    if IsBin(t, TIMES) && IsBin(t.rhs, PLUS)
    then Some(Bin(PLUS, Bin(TIMES, t.lhs, t.rhs.lhs), Bin(TIMES, t.lhs, t.rhs.rhs))) else None
  }

  function R19(t: Tree): Option<Tree> {
    if IsBin(t, TIMES) && IsBin(t.lhs, MINUS)
    then Some(Bin(MINUS, Bin(TIMES, t.lhs.lhs, t.rhs), Bin(TIMES, t.lhs.rhs, t.rhs))) else None
  }

  function R20(t: Tree): Option<Tree> {
    if IsBin(t, TIMES) && IsBin(t.rhs, MINUS)
    then Some(Bin(MINUS, Bin(TIMES, t.lhs, t.rhs.lhs), Bin(TIMES, t.lhs, t.rhs.rhs))) else None
  }

  /** The guards of R9, R10 and R11 up to the point where they read their
      uninitialised pointer, and those of R13 and R15. */
  predicate ConstantRightGuard(t: Tree) {
    (IsBin(t, PLUS) || IsBin(t, TIMES)) && t.lhs.Bin? && t.rhs.Const?
  }

  /** R2 and R4 take every node on which R9, R10, R11, R13 or R15 could go on. */
  lemma ShadowedRules(t: Tree)
    requires R2R4R6(t).None?
    ensures !ConstantRightGuard(t)
  {
  }

  /** The rules that fold, swap or reassociate. */
  function CollectStep(t: Tree): Option<Tree> {
    if R1R3R5(t).Some? then R1R3R5(t)
    else if R2R4R6(t).Some? then R2R4R6(t)
    else if R7(t).Some? then R7(t)
    else R8(t)
  }

  /** The rules that multiply a constant into a sum or difference. */
  function ScaleStep(t: Tree): Option<Tree> {
    if R12(t).Some? then R12(t)
    else if R14(t).Some? then R14(t)
    else R16(t)
  }

  /** The rules that multiply out. */
  function ExpandStep(t: Tree): Option<Tree> {
    if ExpandSum(t).Some? then ExpandSum(t) else ExpandDifference(t)
  }

  function ExpandSum(t: Tree): Option<Tree> {
    if R17(t).Some? then R17(t) else R18(t)
  }

  function ExpandDifference(t: Tree): Option<Tree> {
    if R19(t).Some? then R19(t) else R20(t)
  }

  /** The first rule that applies at the root, in the order in which visitBinOp
      tries them. */
  function RootStep(t: Tree): Option<Tree> {
    if CollectStep(t).Some? then CollectStep(t)
    else if ScaleStep(t).Some? then ScaleStep(t)
    else ExpandStep(t)
  }

  ghost predicate Irreducible(t: Tree) {
    RootStep(t).None? && (t.Bin? ==> Irreducible(t.lhs) && Irreducible(t.rhs))
  }
}
