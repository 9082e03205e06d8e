/** What the rewrite rules of const_simplify_exp.cpp keep (the value modulo 2^w)
    and decrease (a lexicographic measure), the exhaustive rewriting that
    ConstantSimplifyExp::simplify performs, and the shape of its results. */
module Rewriting {
  import opened Arith
  import opened ExprTree

  // ----- values without reduction -----

  /** The value computed over the unbounded integers, reduced only where an
      uninterpreted operator looks at its operands. */
  function EvInt(t: Tree, env: Env, m: nat): int
    requires m > 0
  {
    match t
    case Const(_, val) => val
    case Leaf(name) => env.leaf(name)
    case Bin(PLUS, l, r) => EvInt(l, env, m) + EvInt(r, env, m)
    case Bin(MINUS, l, r) => EvInt(l, env, m) - EvInt(r, env, m)
    case Bin(TIMES, l, r) => EvInt(l, env, m) * EvInt(r, env, m)
    case Bin(op, l, r) => env.binop(op, EvInt(l, env, m) % m, EvInt(r, env, m) % m)
  }

  lemma {:induction false} EvIsResidue(t: Tree, env: Env, m: nat)
    requires m > 0
    ensures Ev(t, env, m) == EvInt(t, env, m) % m
  {
    if t.Bin? {
      EvIsResidue(t.lhs, env, m);
      EvIsResidue(t.rhs, env, m);
      var x, y := EvInt(t.lhs, env, m), EvInt(t.rhs, env, m);
      match t.op
      case PLUS => ModAdd(x, y, m);
      case MINUS => ModSub(x, y, m);
      case TIMES => ModMul(x, y, m);
      case OTHER(_) =>
    }
  }

  /** Two trees with the same unbounded value have the same value modulo m. */
  lemma SameIntSameValue(s: Tree, t: Tree, env: Env, m: nat, k: int)
    requires m > 0 && EvInt(s, env, m) == EvInt(t, env, m) + k * m
    ensures Ev(s, env, m) == Ev(t, env, m)
  {
    EvIsResidue(s, env, m);
    EvIsResidue(t, env, m);
    ModEqual(EvInt(s, env, m), EvInt(t, env, m), k, m);
  }

  // ----- constants -----

  /** Truncating to 64 bits and then to the register changes a value by a multiple
      of 2^w. */
  lemma CastMultiple(w: RegT, v: int) returns (k: int)
    requires w != REG_1
    ensures CastValue(w, v % TWO64) == v + k * Modulus(w)
  {
    var m := Modulus(w);
    var u := v % TWO64;
    var q := TWO64 / m;
    assert TWO64 == q * m;
    k := -(v / TWO64) * q - u / m + (if w == REG_64 then u / m else 0);
    MulAssoc(-(v / TWO64), q, m);
    MulDistribute(-(v / TWO64) * q, u / m, m);
    assert u == v + -(v / TWO64) * TWO64;
  }

  // ----- one step keeps the value -----

  /** At register type w and under the assignment env, s means what t means. */
  ghost predicate SameValue(s: Tree, t: Tree, w: RegT, env: Env) {
    Typed(t, w) ==> Typed(s, w) && Ev(s, env, Modulus(w)) == Ev(t, env, Modulus(w))
  }

  ghost predicate StepKeepsValue(s: Option<Tree>, t: Tree, w: RegT, env: Env) {
    s.Some? ==> SameValue(s.value, t, w, env)
  }

  lemma SameValueInContext(op: BinopType, l: Tree, l': Tree, r: Tree, r': Tree, w: RegT, env: Env)
    requires SameValue(l', l, w, env) && SameValue(r', r, w, env)
    ensures SameValue(Bin(op, l', r'), Bin(op, l, r), w, env)
  {
  }

  lemma SameValueTransitive(r: Tree, s: Tree, t: Tree, w: RegT, env: Env)
    requires SameValue(r, s, w, env) && SameValue(s, t, w, env)
    ensures SameValue(r, t, w, env)
  {
  }

  /** R1, R3 and R5. */
  lemma FoldKeepsValue(t: Tree, w: RegT, env: Env)
    requires w != REG_1
    ensures StepKeepsValue(R1R3R5(t), t, w, env)
  {
    if R1R3R5(t).Some? && Typed(t, w) {
      assert Typed(t.lhs, w) && Typed(t.rhs, w);
      var a: int, b: int := t.lhs.val, t.rhs.val;
      var v := if t.op == PLUS then a + b else if t.op == MINUS then a - b else a * b;
      assert R1R3R5(t).value == Const(w, CastValue(w, v % TWO64));
      var m := Modulus(w);
      var k := CastMultiple(w, v);
      assert EvInt(t, env, m) == v;
      SameIntSameValue(R1R3R5(t).value, t, env, m, k);
    }
  }

  /** R2, R4 and R6. */
  lemma SwapKeepsValue(t: Tree, w: RegT, env: Env)
    requires w != REG_1
    ensures StepKeepsValue(R2R4R6(t), t, w, env)
  {
    if R2R4R6(t).Some? && Typed(t, w) {
      assert Typed(t.lhs, w) && Typed(t.rhs, w);
      var s, m := R2R4R6(t).value, Modulus(w);
      var x, c := EvInt(t.lhs, env, m), t.rhs.val;
      if t.op == MINUS {
        var q := TWO64 / m;
        assert TWO64 == q * m;
        var k := -((0 - c) / TWO64) * q;
        MulAssoc(-((0 - c) / TWO64), q, m);
        assert EvInt(s, env, m) == (0 - c) % TWO64 + x;
        SameIntSameValue(s, t, env, m, k);
      } else {
        Commute(x, c);
        SameIntSameValue(s, t, env, m, 0);
      }
    }
  }

  lemma EvAssociates(op: BinopType, a: Tree, b: Tree, c: Tree, env: Env, m: nat)
    requires m > 0 && (op == PLUS || op == TIMES)
    ensures Ev(Bin(op, Bin(op, a, b), c), env, m) == Ev(Bin(op, a, Bin(op, b, c)), env, m)
  {
    MulAssoc(EvInt(a, env, m), EvInt(b, env, m), EvInt(c, env, m));
    SameIntSameValue(Bin(op, Bin(op, a, b), c), Bin(op, a, Bin(op, b, c)), env, m, 0);
  }

  lemma EvCommutes(a: Tree, b: Tree, env: Env, m: nat)
    requires m > 0
    ensures Ev(Bin(TIMES, a, b), env, m) == Ev(Bin(TIMES, b, a), env, m)
  {
    Commute(EvInt(a, env, m), EvInt(b, env, m));
    SameIntSameValue(Bin(TIMES, a, b), Bin(TIMES, b, a), env, m, 0);
  }

  lemma EvDistributes(op: BinopType, a: Tree, b: Tree, c: Tree, env: Env, m: nat)
    requires m > 0 && (op == PLUS || op == MINUS)
    ensures Ev(Bin(op, Bin(TIMES, a, c), Bin(TIMES, b, c)), env, m) == Ev(Bin(TIMES, Bin(op, a, b), c), env, m)
  {
    MulDistribute(EvInt(a, env, m), EvInt(b, env, m), EvInt(c, env, m));
    SameIntSameValue(Bin(op, Bin(TIMES, a, c), Bin(TIMES, b, c)), Bin(TIMES, Bin(op, a, b), c), env, m, 0);
  }

  lemma Associates(op: BinopType, a: Tree, b: Tree, c: Tree, w: RegT, env: Env)
    requires op == PLUS || op == TIMES
    ensures SameValue(Bin(op, Bin(op, a, b), c), Bin(op, a, Bin(op, b, c)), w, env)
  {
    EvAssociates(op, a, b, c, env, Modulus(w));
    assert Typed(Bin(op, b, c), w) <==> Typed(b, w) && Typed(c, w);
    assert Typed(Bin(op, a, b), w) <==> Typed(a, w) && Typed(b, w);
  }

  lemma ProductCommutes(a: Tree, b: Tree, w: RegT, env: Env)
    ensures SameValue(Bin(TIMES, a, b), Bin(TIMES, b, a), w, env)
  {
    EvCommutes(a, b, env, Modulus(w));
  }

  lemma DistributesLeft(op: BinopType, a: Tree, b: Tree, c: Tree, w: RegT, env: Env)
    requires op == PLUS || op == MINUS
    ensures SameValue(Bin(op, Bin(TIMES, a, c), Bin(TIMES, b, c)), Bin(TIMES, Bin(op, a, b), c), w, env)
  {
    EvDistributes(op, a, b, c, env, Modulus(w));
    assert Typed(Bin(op, a, b), w) <==> Typed(a, w) && Typed(b, w);
    assert Typed(Bin(TIMES, a, c), w) <==> Typed(a, w) && Typed(c, w);
    assert Typed(Bin(TIMES, b, c), w) <==> Typed(b, w) && Typed(c, w);
  }

  /** c * (a op b), multiplied out with the factors of the second product in
      either order. */
  lemma DistributesRight(op: BinopType, a: Tree, b: Tree, c: Tree, w: RegT, env: Env)
    requires op == PLUS || op == MINUS
    ensures SameValue(Bin(op, Bin(TIMES, c, a), Bin(TIMES, c, b)), Bin(TIMES, c, Bin(op, a, b)), w, env)
    ensures SameValue(Bin(op, Bin(TIMES, c, a), Bin(TIMES, b, c)), Bin(TIMES, c, Bin(op, a, b)), w, env)
  {
    var t0, t1 := Bin(TIMES, c, Bin(op, a, b)), Bin(TIMES, Bin(op, a, b), c);
    var ac, ca, bc, cb := Bin(TIMES, a, c), Bin(TIMES, c, a), Bin(TIMES, b, c), Bin(TIMES, c, b);
    ProductCommutes(Bin(op, a, b), c, w, env);
    DistributesLeft(op, a, b, c, w, env);
    SameValueTransitive(Bin(op, ac, bc), t1, t0, w, env);
    ProductCommutes(c, a, w, env);
    ProductCommutes(c, b, w, env);
    SameValueInContext(op, ac, ca, bc, cb, w, env);
    SameValueTransitive(Bin(op, ca, cb), Bin(op, ac, bc), t0, w, env);
    SameValueInContext(op, ac, ca, bc, bc, w, env);
    SameValueTransitive(Bin(op, ca, bc), Bin(op, ac, bc), t0, w, env);
  }

  lemma ReassociateKeepsValue(t: Tree, w: RegT, env: Env)
    ensures StepKeepsValue(R7(t), t, w, env) && StepKeepsValue(R8(t), t, w, env)
  {
    if R7(t).Some? || R8(t).Some? {
      Associates(t.op, t.lhs, t.rhs.lhs, t.rhs.rhs, w, env);
    }
  }

  lemma R12KeepsValue(t: Tree, w: RegT, env: Env)
    requires w != REG_1
    ensures StepKeepsValue(R12(t), t, w, env)
  {
    if R12(t).Some? {
      var c1, c2, e := t.lhs, t.rhs.lhs, t.rhs.rhs;
      FoldKeepsValue(Bin(TIMES, c1, c2), w, env);
      var c := R1R3R5(Bin(TIMES, c1, c2)).value;
      SameValueInContext(PLUS, Bin(TIMES, c1, c2), c, Bin(TIMES, c1, e), Bin(TIMES, c1, e), w, env);
      DistributesRight(PLUS, c2, e, c1, w, env);
      SameValueTransitive(R12(t).value, Bin(PLUS, Bin(TIMES, c1, c2), Bin(TIMES, c1, e)), t, w, env);
    }
  }

  lemma DistributeKeepsValue(t: Tree, w: RegT, env: Env)
    ensures StepKeepsValue(R14(t), t, w, env) && StepKeepsValue(R16(t), t, w, env)
    ensures StepKeepsValue(R17(t), t, w, env) && StepKeepsValue(R19(t), t, w, env)
    ensures StepKeepsValue(R18(t), t, w, env) && StepKeepsValue(R20(t), t, w, env)
  {
    if IsBin(t, TIMES) && (IsBin(t.rhs, PLUS) || IsBin(t.rhs, MINUS)) {
      DistributesRight(t.rhs.op, t.rhs.lhs, t.rhs.rhs, t.lhs, w, env);
    }
    if IsBin(t, TIMES) && (IsBin(t.lhs, PLUS) || IsBin(t.lhs, MINUS)) {
      DistributesLeft(t.lhs.op, t.lhs.lhs, t.lhs.rhs, t.rhs, w, env);
    }
  }

  lemma RootStepKeepsValue(t: Tree, w: RegT, env: Env)
    requires w != REG_1
    ensures StepKeepsValue(RootStep(t), t, w, env)
  {
    FoldKeepsValue(t, w, env);
    SwapKeepsValue(t, w, env);
    ReassociateKeepsValue(t, w, env);
    R12KeepsValue(t, w, env);
    DistributeKeepsValue(t, w, env);
  }

  // ----- the measure -----

  /** A polynomial interpretation that every distributing or folding rule decreases. */
  function Weight(t: Tree): (n: nat)
    ensures n >= 2
  {
    match t
    case Const(_, _) => 2
    case Leaf(_) => 2
    case Bin(MINUS, l, r) => Weight(l) + Weight(r) + 2
    case Bin(TIMES, l, r) =>
      assert Weight(l) * Weight(r) >= 4 by { Product(2, Weight(l), 2, Weight(r)); }
      Weight(l) * Weight(r)
    case Bin(_, l, r) => Weight(l) + Weight(r) + 1
  }

  lemma Product(a: nat, x: nat, b: nat, y: nat)
    requires a <= x && b <= y
    ensures a * b <= x * y
  {
    assert a * b <= a * y <= x * y;
  }

  predicate Arithmetic(op: BinopType) { op == PLUS || op == MINUS || op == TIMES }

  /** Tokens of a tree in order: constants, and everything else. An uninterpreted
      operator counts as a token in front of its operands. */
  function Constants(t: Tree): nat {
    match t
    case Const(_, _) => 1
    case Leaf(_) => 0
    case Bin(_, l, r) => Constants(l) + Constants(r)
  }

  function Others(t: Tree): nat {
    match t
    case Const(_, _) => 0
    case Leaf(_) => 1
    case Bin(op, l, r) => (if Arithmetic(op) then 0 else 1) + Others(l) + Others(r)
  }

  /** How often a non-constant token stands before a constant one. */
  function Inversions(t: Tree): nat {
    match t
    case Const(_, _) => 0
    case Leaf(_) => 0
    case Bin(op, l, r) =>
      (if Arithmetic(op) then 0 else Constants(l) + Constants(r))
      + Inversions(l) + Inversions(r) + Others(l) * Constants(r)
  }

  function Size(t: Tree): nat {
    match t
    case Const(_, _) => 1
    case Leaf(_) => 1
    case Bin(_, l, r) => 1 + Size(l) + Size(r)
  }

  function RightSizes(t: Tree): nat {
    match t
    case Const(_, _) => 0
    case Leaf(_) => 0
    case Bin(_, l, r) => RightSizes(l) + RightSizes(r) + Size(r)
  }

  /** The order in which every rewrite step goes down; unlike the bare
      lexicographic order it carries over from an operand to the whole. */
  ghost predicate Less(s: Tree, t: Tree) {
    || Weight(s) < Weight(t)
    || (&& Weight(s) == Weight(t)
        && Constants(s) == Constants(t) && Others(s) == Others(t) && Size(s) == Size(t)
        && (|| Inversions(s) < Inversions(t)
            || (Inversions(s) == Inversions(t) && RightSizes(s) < RightSizes(t))))
  }

  lemma ProductStrict(x: nat, x': nat, y: nat)
    requires x' < x && y >= 1
    ensures x' * y < x * y && y * x' < y * x
  {
    assert x * y == x' * y + (x - x') * y;
    assert (x - x') * y >= y by { Product(1, x - x', y, y); }
    assert y * x' == x' * y && y * x == x * y;
  }

  lemma LessInContext(op: BinopType, l: Tree, l': Tree, r: Tree, r': Tree)
    requires l' == l || Less(l', l)
    requires r' == r || Less(r', r)
    requires l' != l || r' != r
    ensures Less(Bin(op, l', r'), Bin(op, l, r))
  {
    var t, t' := Bin(op, l, r), Bin(op, l', r');
    if l' != l && Weight(l') < Weight(l) {
      ProductStrict(Weight(l), Weight(l'), Weight(r));
      Product(Weight(l'), Weight(l'), Weight(r'), Weight(r));
      assert Weight(t') < Weight(t);
    } else if r' != r && Weight(r') < Weight(r) {
      ProductStrict(Weight(r), Weight(r'), Weight(l));
      Product(Weight(l'), Weight(l), Weight(r'), Weight(r'));
      assert Weight(t') < Weight(t);
    } else {
      assert Weight(t') == Weight(t);
    }
  }

  /** An operand weighs less than the operation. */
  lemma OperandLighter(t: Tree)
    requires t.Bin?
    ensures Weight(t.lhs) < Weight(t) && Weight(t.rhs) < Weight(t)
  {
    ProductStrict(Weight(t.lhs), 1, Weight(t.rhs));
    ProductStrict(Weight(t.rhs), 1, Weight(t.lhs));
  }

  /** An operand on which no rule applies any more and which is not itself a
      constant mentions something that is not a constant. */
  lemma {:induction false} SimplifiedHasToken(t: Tree)
    requires Irreducible(t) && !t.Const?
    ensures Others(t) >= 1
  {
    if t.Bin? && Arithmetic(t.op) {
      if !t.lhs.Const? {
        SimplifiedHasToken(t.lhs);
      } else if !t.rhs.Const? {
        SimplifiedHasToken(t.rhs);
      }
    }
  }

  /** Every rule of visitBinOp goes down in Less when the operands are simplified. */
  lemma RootStepLess(t: Tree)
    requires t.Bin? && Irreducible(t.lhs) && Irreducible(t.rhs)
    requires RootStep(t).Some?
    ensures Less(RootStep(t).value, t)
  {
    if CollectStep(t).Some? {
      CollectStepLess(t);
    } else {
      DistributeLess(t);
      ScaleExpandLess(t);
    }
  }

  lemma CollectStepLess(t: Tree)
    requires t.Bin? && Irreducible(t.lhs) && Irreducible(t.rhs)
    requires CollectStep(t).Some?
    ensures Less(CollectStep(t).value, t)
  {
    if R1R3R5(t).Some? {
    } else if R2R4R6(t).Some? {
      SimplifiedHasToken(t.lhs);
    } else {
      ReassociateLess(t.op, t.lhs, t.rhs.lhs, t.rhs.rhs);
    }
  }

  ghost predicate StepLighter(s: Option<Tree>, t: Tree) {
    s.Some? ==> Weight(s.value) < Weight(t)
  }

  lemma ScaleExpandLess(t: Tree)
    requires StepLighter(R12(t), t) && StepLighter(R14(t), t) && StepLighter(R16(t), t)
    requires StepLighter(R17(t), t) && StepLighter(R18(t), t) && StepLighter(R19(t), t) && StepLighter(R20(t), t)
    ensures StepLighter(ScaleStep(t), t) && StepLighter(ExpandStep(t), t)
  {
  }

  lemma InversionsReassociate(na: nat, nb: nat, kb: nat, kc: nat)
    ensures na * (kb + kc) + nb * kc == na * kb + (na + nb) * kc
  {
  }

  lemma ReassociateInversions(op: BinopType, a: Tree, b: Tree, c: Tree)
    requires op == PLUS || op == TIMES
    ensures Inversions(Bin(op, Bin(op, a, b), c)) == Inversions(Bin(op, a, Bin(op, b, c)))
    ensures Others(Bin(op, Bin(op, a, b), c)) == Others(Bin(op, a, Bin(op, b, c)))
    ensures Constants(Bin(op, Bin(op, a, b), c)) == Constants(Bin(op, a, Bin(op, b, c)))
  {
    var l, r := Bin(op, a, b), Bin(op, b, c);
    assert Others(l) == Others(a) + Others(b) && Constants(r) == Constants(b) + Constants(c);
    assert Inversions(l) == Inversions(a) + Inversions(b) + Others(a) * Constants(b);
    assert Inversions(r) == Inversions(b) + Inversions(c) + Others(b) * Constants(c);
    InversionsReassociate(Others(a), Others(b), Constants(b), Constants(c));
  }

  lemma ReassociateSizes(op: BinopType, a: Tree, b: Tree, c: Tree)
    ensures Size(Bin(op, Bin(op, a, b), c)) == Size(Bin(op, a, Bin(op, b, c)))
    ensures RightSizes(Bin(op, Bin(op, a, b), c)) < RightSizes(Bin(op, a, Bin(op, b, c)))
  {
    var l, r := Bin(op, a, b), Bin(op, b, c);
    assert Size(r) == Size(b) + Size(c) + 1 && RightSizes(r) == RightSizes(b) + RightSizes(c) + Size(c);
    assert Size(l) == Size(a) + Size(b) + 1 && RightSizes(l) == RightSizes(a) + RightSizes(b) + Size(b);
  }

  lemma ReassociateLess(op: BinopType, a: Tree, b: Tree, c: Tree)
    requires op == PLUS || op == TIMES
    ensures Less(Bin(op, Bin(op, a, b), c), Bin(op, a, Bin(op, b, c)))
  {
    ReassociateInversions(op, a, b, c);
    ReassociateSizes(op, a, b, c);
    ReassociateWeight(op, a, b, c);
  }

  lemma ReassociateWeight(op: BinopType, a: Tree, b: Tree, c: Tree)
    requires op == PLUS || op == TIMES
    ensures Weight(Bin(op, Bin(op, a, b), c)) == Weight(Bin(op, a, Bin(op, b, c)))
  {
    MulAssoc(Weight(a), Weight(b), Weight(c));
  }

  lemma WeightDistributes(x: nat, y: nat, z: nat)
    requires z >= 2
    ensures x * z + y * z + 1 < (x + y + 1) * z
    ensures x * z + y * z + 2 < (x + y + 2) * z
  {
    assert (x + y + 1) * z == x * z + y * z + z;
    assert (x + y + 2) * z == x * z + y * z + 2 * z;
  }

  /** c * (a + b) and c * (a - b) weigh more than they do multiplied out, whichever
      way round the products are written. */
  lemma MultipliedOutLighter(op: BinopType, a: Tree, b: Tree, c: Tree)
    requires op == PLUS || op == MINUS
    ensures Weight(Bin(op, Bin(TIMES, a, c), Bin(TIMES, b, c))) < Weight(Bin(TIMES, Bin(op, a, b), c))
    ensures Weight(Bin(op, Bin(TIMES, c, a), Bin(TIMES, c, b))) < Weight(Bin(TIMES, c, Bin(op, a, b)))
    ensures Weight(Bin(op, Bin(TIMES, c, a), Bin(TIMES, b, c))) < Weight(Bin(TIMES, c, Bin(op, a, b)))
  {
    var x, y, z := Weight(a), Weight(b), Weight(c);
    WeightDistributes(x, y, z);
    Commute(x, z);
    Commute(y, z);
    Commute(Weight(Bin(op, a, b)), z);
    assert Weight(Bin(TIMES, a, c)) == x * z && Weight(Bin(TIMES, b, c)) == y * z;
    assert Weight(Bin(TIMES, c, a)) == x * z && Weight(Bin(TIMES, c, b)) == y * z;
  }

  lemma DistributeLess(t: Tree)
    ensures StepLighter(R12(t), t)
    ensures StepLighter(R14(t), t)
    ensures StepLighter(R16(t), t)
    ensures StepLighter(R17(t), t)
    ensures StepLighter(R18(t), t)
    ensures StepLighter(R19(t), t)
    ensures StepLighter(R20(t), t)
  {
    if IsBin(t, TIMES) && (IsBin(t.rhs, PLUS) || IsBin(t.rhs, MINUS)) {
      MultipliedOutLighter(t.rhs.op, t.rhs.lhs, t.rhs.rhs, t.lhs);
      if R12(t).Some? {
        assert Weight(Bin(TIMES, t.lhs, t.rhs.lhs)) == 4;
      }
    }
    if IsBin(t, TIMES) && (IsBin(t.lhs, PLUS) || IsBin(t.lhs, MINUS)) {
      MultipliedOutLighter(t.lhs.op, t.lhs.lhs, t.lhs.rhs, t.rhs);
    }
  }

  // ----- exhaustive rewriting -----

  /** One pass of visitBinOp: simplify both operands and, if that changed nothing,
      apply the first rule at the root. */
  ghost function Pass(t: Tree): (s: Tree)
    ensures s == t ==> Irreducible(t)
    ensures s == t || Less(s, t)
    decreases Weight(t), Inversions(t), RightSizes(t), 0
  {
    if !t.Bin? then t else
    OperandLighter(t);
    var l, r := Simp(t.lhs), Simp(t.rhs);
    if l != t.lhs || r != t.rhs then
      LessInContext(t.op, t.lhs, l, t.rhs, r);
      Bin(t.op, l, r)
    else if RootStep(t).Some? then
      RootStepLess(t);
      RootStep(t).value
    else t
  }

  /** What simplify computes: passes until one changes nothing. */
  ghost function Simp(t: Tree): (s: Tree)
    ensures Irreducible(s)
    ensures s == t || Less(s, t)
    decreases Weight(t), Inversions(t), RightSizes(t), 1
  {
    if Pass(t) == t then t else Simp(Pass(t))
  }

  lemma PassOfOperands(t: Tree)
    requires t.Bin? && t != Bin(t.op, Simp(t.lhs), Simp(t.rhs))
    ensures Pass(t) == Bin(t.op, Simp(t.lhs), Simp(t.rhs))
  {
  }

  lemma PassOfRoot(t: Tree)
    requires t.Bin? && t == Bin(t.op, Simp(t.lhs), Simp(t.rhs))
    ensures Pass(t) == (if RootStep(t).Some? then RootStep(t).value else t)
    ensures RootStep(t).Some? <==> Pass(t) != t
  {
    if RootStep(t).Some? {
      RootStepLess(t);
    }
  }

  /** Some passes lead from t to s. */
  ghost predicate Reached(s: Tree, t: Tree) {
    (s == t || Less(s, t)) && Simp(s) == Simp(t)
  }

  /** Another pass goes on from s, and ends the loop exactly when s is the result. */
  lemma SimplifyStep(s: Tree, t: Tree)
    requires Reached(s, t)
    ensures Reached(Pass(s), t)
    ensures Pass(s) == s ==> s == Simp(t)
    ensures Pass(s) != s ==> Less(Pass(s), s) && Pass(s) != t
    ensures !s.Bin? ==> Pass(s) == s
  {
  }

  /** A tree on which no rule applies is left alone. */
  lemma {:induction false} SimpFixpoint(t: Tree)
    requires Irreducible(t)
    ensures Simp(t) == t
  {
    if t.Bin? {
      SimpFixpoint(t.lhs);
      SimpFixpoint(t.rhs);
    }
  }

  lemma {:induction false} PassKeepsValue(t: Tree, w: RegT, env: Env)
    requires w != REG_1
    ensures SameValue(Pass(t), t, w, env)
    decreases Weight(t), Inversions(t), RightSizes(t), 0
  {
    if t.Bin? {
      OperandLighter(t);
      SimpKeepsValue(t.lhs, w, env);
      SimpKeepsValue(t.rhs, w, env);
      SameValueInContext(t.op, t.lhs, Simp(t.lhs), t.rhs, Simp(t.rhs), w, env);
      RootStepKeepsValue(t, w, env);
    }
  }

  lemma {:induction false} SimpKeepsValue(t: Tree, w: RegT, env: Env)
    requires w != REG_1
    ensures SameValue(Simp(t), t, w, env)
    decreases Weight(t), Inversions(t), RightSizes(t), 1
  {
    PassKeepsValue(t, w, env);
    if Pass(t) != t {
      SimpKeepsValue(Pass(t), w, env);
      SameValueTransitive(Simp(t), Pass(t), t, w, env);
    }
  }

  /** The exact value that R1, R3 and R5 fold. */
  function ExactFold(t: Tree): int
    requires t.Bin? && t.lhs.Const? && t.rhs.Const?
  {
    var a: int, b: int := t.lhs.val, t.rhs.val;
    if t.op == PLUS then a + b else if t.op == MINUS then a - b else a * b
  }

  /** On one-bit constants the saturating cast keeps the value modulo 2 exactly when
      the exact result is odd or its low 64 bits are all zero. */
  lemma OneBitFoldIff(t: Tree, env: Env)
    requires Typed(t, REG_1) && R1R3R5(t).Some?
    ensures var v := ExactFold(t);
      Ev(R1R3R5(t).value, env, 2) == Ev(t, env, 2) <==> v % TWO64 == 0 || v % 2 == 1
  {
    var v := ExactFold(t);
    assert Typed(t.lhs, REG_1) && Typed(t.rhs, REG_1);
    assert R1R3R5(t).value == Const(REG_1, CastValue(REG_1, v % TWO64));
    assert EvInt(t, env, 2) == v;
    EvIsResidue(t, env, 2);
    assert v % TWO64 == 0 ==> v % 2 == 0 by { ModEqual(v, v % TWO64, v / TWO64 * (TWO64 / 2), 2); }
  }

  /** Of the constants 0 and 1 only the sum 1 + 1 goes wrong. */
  lemma OneBitConstants(op: BinopType, a: u64, b: u64, env: Env)
    requires Arithmetic(op) && a <= 1 && b <= 1
    ensures var t := Bin(op, Const(REG_1, a), Const(REG_1, b));
      R1R3R5(t).Some? && (Ev(R1R3R5(t).value, env, 2) == Ev(t, env, 2) <==> !(op == PLUS && a == 1 && b == 1))
  {
    var t := Bin(op, Const(REG_1, a), Const(REG_1, b));
    assert Typed(t.lhs, REG_1) && Typed(t.rhs, REG_1);
    OneBitFoldIff(t, env);
    if op == TIMES {
      if a == 0 { MulMono(0, 0, b); }
    }
  }

  /** The saturating one-bit cast breaks the addition of constants: 1 + 1 is 0
      modulo 2 but folds to 1. */
  lemma OneBitFoldingLosesValue(env: Env)
    ensures var t := Bin(PLUS, Const(REG_1, 1), Const(REG_1, 1));
      Typed(t, REG_1) && Ev(Simp(t), env, 2) != Ev(t, env, 2)
  {
    var t := Bin(PLUS, Const(REG_1, 1), Const(REG_1, 1));
    SimpFixpoint(t.lhs);
    assert RootStep(t) == Some(Const(REG_1, 1));
    SimpFixpoint(Const(REG_1, 1));
  }

  // ----- the shape of the result -----

  /** The operands of the maximal chain of one operator at the root, left to right. */
  function Chain(op: BinopType, t: Tree): (c: seq<Tree>)
    ensures |c| >= 1
    ensures forall i :: 0 <= i < |c| ==> !IsBin(c[i], op)
  {
    if IsBin(t, op) then Chain(op, t.lhs) + Chain(op, t.rhs) else [t]
  }

  /** ((c[0] op c[1]) op c[2]) op ... */
  function LeftNest(op: BinopType, c: seq<Tree>): Tree
    requires |c| >= 1
  {
    if |c| == 1 then c[0] else Bin(op, LeftNest(op, c[..|c| - 1]), c[|c| - 1])
  }

  ghost predicate LeftNestedChain(op: BinopType, t: Tree) {
    var c := Chain(op, t);
    && t == LeftNest(op, c)
    && forall i :: 1 <= i < |c| ==> !c[i].Const?
  }

  /** Expanded normal form: sums and products are left-nested chains in which only
      the first operand may be a constant, no product multiplies a sum or a
      difference, and no difference subtracts a constant. */
  ghost predicate NormalForm(t: Tree) {
    match t
    case Const(_, _) => true
    case Leaf(_) => true
    case Bin(op, l, r) =>
      && NormalForm(l) && NormalForm(r)
      && (op == PLUS ==> LeftNestedChain(PLUS, t))
      && (op == TIMES ==> LeftNestedChain(TIMES, t))
      && (op == TIMES ==> forall a :: a in Chain(TIMES, t) ==> !IsBin(a, PLUS) && !IsBin(a, MINUS))
      && (op == MINUS ==> !r.Const?)
  }

  lemma {:induction false} IrreducibleChain(op: BinopType, t: Tree)
    requires op == PLUS || op == TIMES
    requires Irreducible(t)
    ensures LeftNestedChain(op, t)
    ensures op == TIMES && IsBin(t, TIMES) ==>
      forall a :: a in Chain(TIMES, t) ==> !IsBin(a, PLUS) && !IsBin(a, MINUS)
  {
    if IsBin(t, op) {
      IrreducibleChain(op, t.lhs);
      assert !IsBin(t.rhs, op) by {
        assert R7(t).None? && R8(t).None?;
      }
      var c, front := Chain(op, t), Chain(op, t.lhs);
      assert c == front + [t.rhs];
      assert c[..|c| - 1] == front;
      assert !t.rhs.Const? by {
        assert R1R3R5(t).None? && R2R4R6(t).None?;
      }
      if op == TIMES {
        assert R17(t).None? && R18(t).None? && R19(t).None? && R20(t).None?;
        forall a | a in c ensures !IsBin(a, PLUS) && !IsBin(a, MINUS) {
          if a in front && !IsBin(t.lhs, TIMES) {
            assert a == t.lhs;
          }
        }
      }
    }
  }

  lemma {:induction false} IrreducibleIsNormal(t: Tree)
    requires Irreducible(t)
    ensures NormalForm(t)
  {
    if t.Bin? {
      IrreducibleIsNormal(t.lhs);
      IrreducibleIsNormal(t.rhs);
      IrreducibleChain(PLUS, t);
      IrreducibleChain(TIMES, t);
      if t.op == MINUS {
        assert R1R3R5(t).None? && R2R4R6(t).None?;
      }
    }
  }

  /** simplify on values: it ends, in expanded normal form, without changing the
      value at any width but one bit, and running it again changes nothing. */
  lemma SimplifyCorrect(t: Tree)
    ensures NormalForm(Simp(t)) && Simp(Simp(t)) == Simp(t)
    ensures forall w: RegT, env: Env :: w != REG_1 ==> SameValue(Simp(t), t, w, env)
  {
    IrreducibleIsNormal(Simp(t));
    SimpFixpoint(Simp(t));
    forall w: RegT, env: Env | w != REG_1
      ensures SameValue(Simp(t), t, w, env)
    {
      SimpKeepsValue(t, w, env);
    }
  }

  // ----- rewriting in any order -----

  /** Which operands lead from the root to a node. */
  datatype Position = Here | Left(p: Position) | Right(p: Position)

  /** The tree with the first rule that fits applied at one node. */
  function RewriteAt(t: Tree, p: Position): Option<Tree>
    decreases p
  {
    match p
    case Here => RootStep(t)
    case Left(q) =>
      if !t.Bin? || RewriteAt(t.lhs, q).None? then None else Some(Bin(t.op, RewriteAt(t.lhs, q).value, t.rhs))
    case Right(q) =>
      if !t.Bin? || RewriteAt(t.rhs, q).None? then None else Some(Bin(t.op, t.lhs, RewriteAt(t.rhs, q).value))
  }

  /** Rules applied at these nodes, one after the other. */
  function Rewrites(t: Tree, ps: seq<Position>): Option<Tree>
    decreases |ps|
  {
    if ps == [] then Some(t)
    else if RewriteAt(t, ps[0]).None? then None
    else Rewrites(RewriteAt(t, ps[0]).value, ps[1..])
  }

  lemma {:induction false} RewriteAtKeepsValue(t: Tree, p: Position, w: RegT, env: Env)
    requires w != REG_1
    ensures StepKeepsValue(RewriteAt(t, p), t, w, env)
    decreases p
  {
    hide RootStep;
    match p
    case Here => RootStepKeepsValue(t, w, env);
    case Left(q) =>
      if RewriteAt(t, p).Some? {
        RewriteAtKeepsValue(t.lhs, q, w, env);
        SameValueInContext(t.op, t.lhs, RewriteAt(t.lhs, q).value, t.rhs, t.rhs, w, env);
      }
    case Right(q) =>
      if RewriteAt(t, p).Some? {
        RewriteAtKeepsValue(t.rhs, q, w, env);
        SameValueInContext(t.op, t.lhs, t.lhs, t.rhs, RewriteAt(t.rhs, q).value, w, env);
      }
  }

  /** The value does not depend on the driver: whichever nodes it visits or, like the
      memo of simplified nodes, passes over, every sequence of rule applications keeps
      it. */
  lemma {:induction false} AnyOrderKeepsValue(t: Tree, ps: seq<Position>, w: RegT, env: Env)
    requires w != REG_1
    ensures StepKeepsValue(Rewrites(t, ps), t, w, env)
    decreases |ps|
  {
    if ps != [] && RewriteAt(t, ps[0]).Some? {
      var s := RewriteAt(t, ps[0]).value;
      RewriteAtKeepsValue(t, ps[0], w, env);
      AnyOrderKeepsValue(s, ps[1..], w, env);
      if Rewrites(s, ps[1..]).Some? { SameValueTransitive(Rewrites(s, ps[1..]).value, s, t, w, env); }
    }
  }
}
