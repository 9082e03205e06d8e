/** The simplifier with R6 exactly as const_simplify_exp.cpp has it: when a run
    reaches that case it leaves a node shared, and soon a cycle; and that happens
    exactly for trees that subtract a constant expression from one that is not. */
module AsWritten {
  import opened Arith
  import opened ExprTree
  import opened Rewriting

  // ----- the rule -----

  /** The MINUS case of R2R4R6 never stores the negated constant: both operands of
      the new sum are the old left operand. */
  function R6AsWritten(t: Tree): Option<Tree> {
    if IsBin(t, MINUS) && !t.lhs.Const? && t.rhs.Const?
    then Some(Bin(PLUS, t.lhs, t.lhs)) else None
  }

  /** x - c became x + x: right exactly for the assignments where x + c vanishes. */
  lemma R6AsWrittenRightIff(t: Tree, w: RegT, env: Env)
    requires R6AsWritten(t).Some?
    ensures var m := Modulus(w);
      Ev(R6AsWritten(t).value, env, m) == Ev(t, env, m) <==>
      (Ev(t.lhs, env, m) + t.rhs.val) % m == 0
  {
    hide Modulus;
    var m := Modulus(w);
    var x, c := Ev(t.lhs, env, m), t.rhs.val;
    ModSubRight(c, x, m);
    TwiceOrLess(x, c, m);
  }

  lemma TwiceOrLess(x: int, c: int, m: nat)
    requires m > 0
    ensures (x + x) % m == (x - c) % m <==> (x + c) % m == 0
  {
    ModSub(x + x, x - c, m);
    assert x + x - (x - c) == x + c;
    SameResidue((x + x) % m, (x - c) % m, m);
  }

  lemma SameResidue(u: int, v: int, m: nat)
    requires 0 <= u < m && 0 <= v < m
    ensures (u - v) % m == 0 <==> u == v
  {
    if (u - v) % m == 0 {
      SmallMultiple((u - v) / m, m);
    }
  }

  /** x - 1 at x = 0: the rule leaves x + x. */
  lemma R6AsWrittenLosesValue(w: RegT, binop: (BinopType, int, int) -> int)
    ensures var t, env := Bin(MINUS, Leaf("x"), Const(w, 1)), Env(_ => 0, binop);
      && R6AsWritten(t).Some?
      && Ev(R6AsWritten(t).value, env, Modulus(w)) == 0 && Ev(t, env, Modulus(w)) == Modulus(w) - 1
  {
    var m := Modulus(w);
    ModSmall(1, m);
    DivModUnique(0 - 1, -1, m - 1, m);
  }

  // ----- when a run reaches it -----

  /** Some difference subtracts an expression of constants only from one that
      mentions something else. */
  ghost predicate ConstantDifference(t: Tree) {
    t.Bin? &&
      (|| (t.op == MINUS && Others(t.lhs) >= 1 && Others(t.rhs) == 0)
       || ConstantDifference(t.lhs) || ConstantDifference(t.rhs))
  }

  lemma RootStepKeepsTokens(t: Tree)
    requires RootStep(t).Some?
    ensures Others(RootStep(t).value) == 0 <==> Others(t) == 0
  {
    hide Others, R1R3R5, R2R4R6, R7, R8, R12, R14, R16, R17, R18, R19, R20;
    if CollectStep(t).Some? { CollectKeepsTokens(t); }
    if ScaleStep(t).Some? { ScaleKeepsTokens(t); }
    if ExpandStep(t).Some? { ExpandKeepsTokens(t); }
  }

  lemma CollectKeepsTokens(t: Tree)
    requires CollectStep(t).Some?
    ensures Others(CollectStep(t).value) == Others(t)
  {
    if t.rhs.Bin? { assert Others(Bin(t.op, t.lhs, t.rhs.lhs)) == Others(t.lhs) + Others(t.rhs.lhs); }
  }

  lemma ScaleKeepsTokens(t: Tree)
    requires ScaleStep(t).Some?
    ensures Others(ScaleStep(t).value) == 0 <==> Others(t) == 0
  {
    var c, a, b := t.lhs, t.rhs.lhs, t.rhs.rhs;
    assert Others(Bin(TIMES, c, a)) == Others(a) && Others(Bin(TIMES, c, b)) == Others(Bin(TIMES, b, c)) == Others(b);
  }

  lemma ExpandKeepsTokens(t: Tree)
    requires ExpandStep(t).Some?
    ensures Others(ExpandStep(t).value) == 0 <==> Others(t) == 0
  {
    if t.rhs.Bin? {
      var c, a, b := t.lhs, t.rhs.lhs, t.rhs.rhs;
      assert Others(Bin(TIMES, c, a)) == Others(c) + Others(a) && Others(Bin(TIMES, c, b)) == Others(c) + Others(b);
    }
    if t.lhs.Bin? {
      var a, b, c := t.lhs.lhs, t.lhs.rhs, t.rhs;
      assert Others(Bin(TIMES, a, c)) == Others(a) + Others(c) && Others(Bin(TIMES, b, c)) == Others(b) + Others(c);
    }
  }

  lemma {:induction false} SimpKeepsTokens(t: Tree)
    ensures Others(Simp(t)) == 0 <==> Others(t) == 0
    decreases Weight(t), Inversions(t), RightSizes(t), 1
  {
    PassKeepsTokens(t);
    if Pass(t) != t { SimpKeepsTokens(Pass(t)); }
  }

  lemma {:induction false} PassKeepsTokens(t: Tree)
    ensures Others(Pass(t)) == 0 <==> Others(t) == 0
    decreases Weight(t), Inversions(t), RightSizes(t), 0
  {
    if t.Bin? {
      OperandLighter(t);
      SimpKeepsTokens(t.lhs);
      SimpKeepsTokens(t.rhs);
      if RootStep(t).Some? { RootStepKeepsTokens(t); }
    }
  }

  /** Exactly the expressions of constants fold to a constant. */
  lemma SimpConstIff(t: Tree)
    ensures Simp(t).Const? <==> Others(t) == 0
  {
    SimpKeepsTokens(t);
    if !Simp(t).Const? { SimplifiedHasToken(Simp(t)); }
  }

  lemma RootStepKeepsSafe(t: Tree)
    requires !ConstantDifference(t) && RootStep(t).Some?
    ensures !ConstantDifference(RootStep(t).value)
  {
    if CollectStep(t).Some? {
      CollectKeepsSafe(t);
    } else if ScaleStep(t).Some? {
      ScaleKeepsSafe(t);
    } else {
      ExpandKeepsSafe(t);
    }
  }

  lemma CollectKeepsSafe(t: Tree)
    requires !ConstantDifference(t) && CollectStep(t).Some?
    ensures !ConstantDifference(CollectStep(t).value)
  {
    if t.rhs.Bin? {
      assert !ConstantDifference(t.rhs.lhs) && !ConstantDifference(t.rhs.rhs);
    }
  }

  lemma ProductSafe(a: Tree, b: Tree)
    requires !ConstantDifference(a) && !ConstantDifference(b)
    ensures !ConstantDifference(Bin(TIMES, a, b))
  {
  }

  lemma ScaleKeepsSafe(t: Tree)
    requires !ConstantDifference(t) && ScaleStep(t).Some?
    ensures !ConstantDifference(ScaleStep(t).value)
  {
    var c, a, b := t.lhs, t.rhs.lhs, t.rhs.rhs;
    assert !ConstantDifference(t.rhs);
    ProductSafe(c, a);
    ProductSafe(c, b);
    ProductSafe(b, c);
  }

  lemma ExpandKeepsSafe(t: Tree)
    requires !ConstantDifference(t) && ExpandStep(t).Some?
    ensures !ConstantDifference(ExpandStep(t).value)
  {
    if IsBin(t.lhs, PLUS) || IsBin(t.lhs, MINUS) {
      assert !ConstantDifference(t.lhs);
      ProductSafe(t.lhs.lhs, t.rhs);
      ProductSafe(t.lhs.rhs, t.rhs);
    }
    if IsBin(t.rhs, PLUS) || IsBin(t.rhs, MINUS) {
      assert !ConstantDifference(t.rhs);
      ProductSafe(t.lhs, t.rhs.lhs);
      ProductSafe(t.lhs, t.rhs.rhs);
    }
  }

  lemma {:induction false} PassKeepsSafe(t: Tree)
    requires !ConstantDifference(t)
    ensures !ConstantDifference(Pass(t))
    decreases Weight(t), Inversions(t), RightSizes(t), 0
  {
    if t.Bin? {
      OperandLighter(t);
      SimpKeepsSafe(t.lhs);
      SimpKeepsSafe(t.rhs);
      SimpKeepsTokens(t.lhs);
      SimpKeepsTokens(t.rhs);
      if RootStep(t).Some? { RootStepKeepsSafe(t); }
    }
  }

  lemma {:induction false} SimpKeepsSafe(t: Tree)
    requires !ConstantDifference(t)
    ensures !ConstantDifference(Simp(t))
    decreases Weight(t), Inversions(t), RightSizes(t), 1
  {
    PassKeepsSafe(t);
    if Pass(t) != t { SimpKeepsSafe(Pass(t)); }
  }

  /** With simplified operands, R6 applies exactly at the differences that
      ConstantDifference looks for. */
  lemma R6Guard(t: Tree)
    requires t.Bin? && Irreducible(t.lhs) && Irreducible(t.rhs)
    ensures R6AsWritten(t).Some? <==> t.op == MINUS && Others(t.lhs) >= 1 && Others(t.rhs) == 0
  {
    if !t.lhs.Const? { SimplifiedHasToken(t.lhs); }
    if !t.rhs.Const? { SimplifiedHasToken(t.rhs); }
  }

  // ----- the run as written -----

  /** A pass as written, up to the first use of R6, which ends the tree. */
  ghost function PassAsWritten(t: Tree): (s: Option<Tree>)
    ensures s.Some? ==> s.value == Pass(t)
    decreases Weight(t), Inversions(t), RightSizes(t), 0
  {
    if !t.Bin? then Some(t) else
    OperandLighter(t);
    var l, r := SimpAsWritten(t.lhs), SimpAsWritten(t.rhs);
    if l.None? || r.None? then None
    else if l.value != t.lhs || r.value != t.rhs then Some(Bin(t.op, l.value, r.value))
    else if R6AsWritten(t).Some? then None
    else Some(if RootStep(t).Some? then RootStep(t).value else t)
  }

  ghost function SimpAsWritten(t: Tree): (s: Option<Tree>)
    ensures s.Some? ==> s.value == Simp(t)
    decreases Weight(t), Inversions(t), RightSizes(t), 1
  {
    var p := PassAsWritten(t);
    if p.None? || p.value == t then p else SimpAsWritten(p.value)
  }

  /** One pass reaches R6, or leaves a tree that will reach it, exactly when the tree
      has such a difference. */
  lemma {:induction false} PassAsWrittenIff(t: Tree)
    ensures !ConstantDifference(t) ==> PassAsWritten(t) == Some(Pass(t))
    ensures ConstantDifference(t) ==>
      PassAsWritten(t).None? || (Pass(t) != t && ConstantDifference(Pass(t)))
    decreases Weight(t), Inversions(t), RightSizes(t), 0
  {
    if t.Bin? {
      OperandLighter(t);
      SimpAsWrittenIff(t.lhs);
      SimpAsWrittenIff(t.rhs);
      SimpKeepsTokens(t.lhs);
      SimpKeepsTokens(t.rhs);
      if Simp(t.lhs) == t.lhs && Simp(t.rhs) == t.rhs { R6Guard(t); }
    }
  }

  /** As written, simplify gives the tree of the intended rules if and only if no
      difference subtracts a constant expression from one that is not; otherwise
      the run reaches R6. */
  lemma {:induction false} SimpAsWrittenIff(t: Tree)
    ensures SimpAsWritten(t) == if ConstantDifference(t) then None else Some(Simp(t))
    decreases Weight(t), Inversions(t), RightSizes(t), 1
  {
    PassAsWrittenIff(t);
    if Pass(t) != t {
      SimpAsWrittenIff(Pass(t));
      if !ConstantDifference(t) { PassKeepsSafe(t); }
    }
  }

  /** A pass reaches R6 in an operand, or at the root when the operands are simplified. */
  lemma PassReaches(t: Tree)
    requires t.Bin?
    ensures PassAsWritten(t).None? <==>
      || ConstantDifference(t.lhs) || ConstantDifference(t.rhs)
      || (Simp(t.lhs) == t.lhs && Simp(t.rhs) == t.rhs && R6AsWritten(t).Some?)
  {
    SimpAsWrittenIff(t.lhs);
    SimpAsWrittenIff(t.rhs);
  }

  /** A pass that does not reach R6 neither makes nor loses a constant difference, and
      the last pass leaves none. */
  lemma PassDecides(t: Tree)
    ensures PassAsWritten(t).None? ==> ConstantDifference(t)
    ensures PassAsWritten(t).Some? ==> ConstantDifference(Pass(t)) == ConstantDifference(t)
    ensures PassAsWritten(t).Some? && Pass(t) == t ==> !ConstantDifference(t)
  {
    PassAsWrittenIff(t);
    if !ConstantDifference(t) { PassKeepsSafe(t); }
  }

  /** So the code as written keeps every value, in normal form, on trees without such
      a difference. */
  lemma AsWrittenCorrect(t: Tree)
    requires !ConstantDifference(t)
    ensures SimpAsWritten(t).Some? && NormalForm(SimpAsWritten(t).value)
    ensures forall w: RegT, env: Env :: w != REG_1 ==> SameValue(SimpAsWritten(t).value, t, w, env)
  {
    SimpAsWrittenIff(t);
    SimplifyCorrect(t);
  }

  // ----- trees without differences -----

  ghost predicate NoDifference(t: Tree) {
    t.Bin? ==> t.op != MINUS && NoDifference(t.lhs) && NoDifference(t.rhs)
  }

  lemma {:induction false} NoDifferenceIsSafe(t: Tree)
    requires NoDifference(t)
    ensures !ConstantDifference(t) && SimpAsWritten(t) == Some(Simp(t))
  {
    if t.Bin? {
      NoDifferenceIsSafe(t.lhs);
      NoDifferenceIsSafe(t.rhs);
    }
    SimpAsWrittenIff(t);
  }
}
