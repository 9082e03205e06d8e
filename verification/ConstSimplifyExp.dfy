/** const_simplify_exp.cpp in its own form: the rules overwrite the fields of heap
    nodes, and ConstantSimplifyExp::simplify runs them until nothing changes.
    Every node carries its abstract tree, and Valid says that the nodes below it
    form an unshared, acyclic tree. */
module ConstSimplifyExp {
  import opened ExprTree
  import opened Rewriting
  import opened AsWritten

  datatype ExpType = BINOP | CONSTANT | LEAF

  class Exp {
    var expType: ExpType
    var binopType: BinopType
    var lhs: Exp?
    var rhs: Exp?
    var typ: RegT
    var val: u64
    var name: string

    ghost var Repr: set<Exp>
    ghost var tree: Tree

    ghost predicate Valid()
      reads this, Repr
      ensures Valid() ==> this in Repr
      decreases Repr
    {
      && this in Repr
      && match expType
         case CONSTANT => Repr == {this} && tree == Const(typ, val)
         case LEAF => Repr == {this} && tree == Leaf(name)
         case BINOP =>
           && lhs != null && rhs != null
           && lhs in Repr && rhs in Repr
           && this !in lhs.Repr && this !in rhs.Repr
           && lhs.Repr !! rhs.Repr
           && Repr == {this} + lhs.Repr + rhs.Repr
           && lhs.Valid() && rhs.Valid()
           && tree == Bin(binopType, lhs.tree, rhs.tree)
    }

    constructor NewConstant(t: RegT, v: u64)
      ensures Valid() && fresh(Repr) && tree == Const(t, v)
      ensures expType == CONSTANT && typ == t && val == v
    {
      expType, typ, val := CONSTANT, t, v;
      binopType, lhs, rhs, name := PLUS, null, null, "";
      Repr, tree := {this}, Const(t, v);
    }

    constructor NewLeaf(n: string)
      ensures Valid() && fresh(Repr) && tree == Leaf(n)
      ensures expType == LEAF && name == n
    {
      expType, name := LEAF, n;
      binopType, lhs, rhs, typ, val := PLUS, null, null, REG_32, 0;
      Repr, tree := {this}, Leaf(n);
    }

    constructor NewBinOp(op: BinopType, l: Exp, r: Exp)
      requires l.Valid() && r.Valid() && l.Repr !! r.Repr
      ensures Valid() && tree == Bin(op, l.tree, r.tree)
      ensures fresh(this) && Repr == {this} + l.Repr + r.Repr
      ensures expType == BINOP && binopType == op && lhs == l && rhs == r
    {
      expType, binopType, lhs, rhs := BINOP, op, l, r;
      typ, val, name := REG_32, 0, "";
      Repr, tree := {this} + l.Repr + r.Repr, Bin(op, l.tree, r.tree);
    }

    /** The copy constructors behind clone(): a copy that shares nothing. */
    method Clone() returns (copy: Exp)
      requires Valid()
      ensures copy.Valid() && fresh(copy.Repr) && copy.tree == tree
      decreases Repr
    {
      if expType == CONSTANT {
        copy := new Exp.NewConstant(typ, val);
      } else if expType == LEAF {
        copy := new Exp.NewLeaf(name);
      } else {
        var l := lhs.Clone();
        var r := rhs.Clone();
        copy := new Exp.NewBinOp(binopType, l, r);
      }
    }

    /** Overwrites the operator and both operands of this node. */
    method Rebuild(op: BinopType, l: Exp, r: Exp)
      requires expType == BINOP
      requires l.Valid() && r.Valid() && l.Repr !! r.Repr
      requires this !in l.Repr && this !in r.Repr
      modifies this
      ensures Valid() && tree == Bin(op, l.tree, r.tree)
      ensures Repr == {this} + l.Repr + r.Repr
      ensures expType == BINOP && binopType == op && lhs == l && rhs == r
    {
      binopType, lhs, rhs := op, l, r;
      Repr, tree := {this} + l.Repr + r.Repr, Bin(op, l.tree, r.tree);
    }
  }

  // ----- the rules, each called with a valid tree -----

  method ApplyR1R3R5(e: Exp) returns (fired: bool, ret: Exp)
    requires e.Valid()
    ensures e.Valid() && e.tree == old(e.tree)
    ensures fired == R1R3R5(e.tree).Some?
    ensures fired ==> ret.Valid() && fresh(ret.Repr) && ret.tree == R1R3R5(e.tree).value
    ensures !fired ==> ret == e
  {
    fired, ret := false, e;
    if e.expType != BINOP || e.lhs.expType != CONSTANT || e.rhs.expType != CONSTANT {
      return;
    }
    var c1, c2 := e.lhs, e.rhs;
    var retType := if RegToBits(c1.typ) > RegToBits(c2.typ) then c1.typ else c2.typ;
    if e.binopType == PLUS {
      ret := new Exp.NewConstant(retType, CastValue(retType, (c1.val + c2.val) % TWO64));
      fired := true;
    } else if e.binopType == TIMES {
      ret := new Exp.NewConstant(retType, CastValue(retType, (c1.val * c2.val) % TWO64));
      fired := true;
    } else if e.binopType == MINUS {
      ret := new Exp.NewConstant(retType, CastValue(retType, (c1.val - c2.val) % TWO64));
      fired := true;
    }
  }

  method ApplyR2R4R6(b: Exp) returns (fired: bool)
    requires b.Valid()
    modifies b.Repr
    ensures fired == R2R4R6(old(b.tree)).Some?
    ensures b.Valid() && b.Repr == old(b.Repr)
    ensures b.tree == if fired then R2R4R6(old(b.tree)).value else old(b.tree)
  {
    if b.expType != BINOP || b.lhs.expType == CONSTANT || b.rhs.expType != CONSTANT {
      return false;
    }
    var c, x := b.rhs, b.lhs;
    match b.binopType
    case PLUS =>
      b.Rebuild(PLUS, c, x);
      return true;
    case TIMES =>
      b.Rebuild(TIMES, c, x);
      return true;
    case MINUS =>
      // The intended rule; ApplyR2R4R6AsWritten is what the source does.
      c.val := (0 - c.val) % TWO64;
      c.tree := Const(c.typ, c.val);
      b.Rebuild(PLUS, c, x);
      return true;
    case OTHER(_) =>
      return false;
  }

  /** R7 and R8 differ only in the operator they look for. */
  method ApplyR7R8(b: Exp, op: BinopType) returns (fired: bool)
    requires b.Valid() && (op == PLUS || op == TIMES)
    modifies b.Repr
    ensures fired == (if op == PLUS then R7(old(b.tree)).Some? else R8(old(b.tree)).Some?)
    ensures b.Valid() && b.Repr == old(b.Repr)
    ensures !fired ==> b.tree == old(b.tree)
    ensures fired ==> b.tree == if op == PLUS then R7(old(b.tree)).value else R8(old(b.tree)).value
  {
    if b.expType != BINOP || b.binopType != op || b.rhs.expType != BINOP || b.rhs.binopType != op {
      return false;
    }
    var rhs := b.rhs;
    var t1, t2, t3 := b.lhs, rhs.lhs, rhs.rhs;
    rhs.Rebuild(op, t1, t2);
    b.Rebuild(op, rhs, t3);
    return true;
  }

  /** R12; the second constant is destroyed. */
  method ApplyR12(b: Exp) returns (fired: bool, ghost dead: set<Exp>)
    requires b.Valid()
    modifies b.Repr
    ensures fired == R12(old(b.tree)).Some?
    ensures b.Valid() && b.tree == if fired then R12(old(b.tree)).value else old(b.tree)
    ensures fresh(b.Repr - old(b.Repr))
    ensures dead <= old(b.Repr) && dead !! b.Repr
  {
    dead := {};
    if b.expType != BINOP || b.binopType != TIMES || b.lhs.expType != CONSTANT
       || b.rhs.expType != BINOP || b.rhs.binopType != PLUS {
      return false, {};
    }
    var c1, rhs := b.lhs, b.rhs;
    var c2, t2 := rhs.lhs, rhs.rhs;
    assert c2.Valid() && rhs.tree == Bin(PLUS, c2.tree, t2.tree);
    if c2.expType != CONSTANT {
      return false, {};
    }
    assert c2.Repr == {c2} && c1.Repr == {c1};
    var retType := if RegToBits(c1.typ) > RegToBits(c2.typ) then c1.typ else c2.typ;
    var ret := new Exp.NewConstant(retType, CastValue(retType, (c1.val * c2.val) % TWO64));
    rhs.Rebuild(TIMES, c1, t2);
    b.Rebuild(PLUS, ret, rhs);
    return true, {c2};
  }

  /** R14, R18 and R20: c * (a op b) becomes c * a op c * b, the node of the right
      operand being used again. */
  method ApplyDistributeRight(b: Exp, op: BinopType) returns (fired: bool)
    requires b.Valid() && (op == PLUS || op == MINUS)
    modifies b.Repr
    ensures fired == (if op == PLUS then R18(old(b.tree)).Some? else R20(old(b.tree)).Some?)
    ensures b.Valid() && fresh(b.Repr - old(b.Repr))
    ensures !fired ==> b.tree == old(b.tree)
    ensures fired ==> b.tree == if op == PLUS then R18(old(b.tree)).value else R20(old(b.tree)).value
  {
    if b.expType != BINOP || b.binopType != TIMES || b.rhs.expType != BINOP || b.rhs.binopType != op {
      return false;
    }
    MultiplyOutRight(b, op);
    return true;
  }

  method MultiplyOutRight(b: Exp, op: BinopType)
    requires b.Valid() && b.tree.Bin? && b.tree.rhs.Bin?
    modifies b.Repr
    ensures b.Valid() && fresh(b.Repr - old(b.Repr))
    ensures var c, a, d := old(b.tree).lhs, old(b.tree).rhs.lhs, old(b.tree).rhs.rhs;
      b.tree == Bin(op, Bin(TIMES, c, a), Bin(TIMES, c, d))
  {
    var t1, rhs := b.lhs, b.rhs;
    var t2, t3 := rhs.lhs, rhs.rhs;
    assert b.Repr == {b, rhs} + t1.Repr + t2.Repr + t3.Repr;
    var copy := t1.Clone();
    var left := new Exp.NewBinOp(TIMES, t1, t2);
    rhs.Rebuild(TIMES, copy, t3);
    assert left.Valid() && rhs.Valid() && left.Repr !! rhs.Repr;
    b.Rebuild(op, left, rhs);
  }

  method ApplyR16(b: Exp) returns (fired: bool)
    requires b.Valid()
    modifies b.Repr
    ensures fired == R16(old(b.tree)).Some?
    ensures b.Valid() && fresh(b.Repr - old(b.Repr))
    ensures b.tree == if fired then R16(old(b.tree)).value else old(b.tree)
  {
    if b.expType != BINOP || b.binopType != TIMES || b.lhs.expType != CONSTANT
       || b.rhs.expType != BINOP || b.rhs.binopType != MINUS {
      return false;
    }
    var c, rhs := b.lhs, b.rhs;
    var t1, t2 := rhs.lhs, rhs.rhs;
    var copy := c.Clone();
    var left := new Exp.NewBinOp(TIMES, c, t1);
    rhs.Rebuild(TIMES, t2, copy);
    b.Rebuild(MINUS, left, rhs);
    return true;
  }

  /** R17 and R19: (a op b) * c becomes a * c op b * c. */
  method ApplyDistributeLeft(b: Exp, op: BinopType) returns (fired: bool)
    requires b.Valid() && (op == PLUS || op == MINUS)
    modifies b.Repr
    ensures fired == (if op == PLUS then R17(old(b.tree)).Some? else R19(old(b.tree)).Some?)
    ensures b.Valid() && fresh(b.Repr - old(b.Repr))
    ensures !fired ==> b.tree == old(b.tree)
    ensures fired ==> b.tree == if op == PLUS then R17(old(b.tree)).value else R19(old(b.tree)).value
  {
    if b.expType != BINOP || b.binopType != TIMES || b.lhs.expType != BINOP || b.lhs.binopType != op {
      return false;
    }
    MultiplyOutLeft(b, op);
    return true;
  }

  method MultiplyOutLeft(b: Exp, op: BinopType)
    requires b.Valid() && b.tree.Bin? && b.tree.lhs.Bin?
    modifies b.Repr
    ensures b.Valid() && fresh(b.Repr - old(b.Repr))
    ensures var a, d, c := old(b.tree).lhs.lhs, old(b.tree).lhs.rhs, old(b.tree).rhs;
      b.tree == Bin(op, Bin(TIMES, a, c), Bin(TIMES, d, c))
  {
    var lhs, t3 := b.lhs, b.rhs;
    var t1, t2 := lhs.lhs, lhs.rhs;
    assert b.Repr == {b, lhs} + t1.Repr + t2.Repr + t3.Repr;
    var copy := t3.Clone();
    lhs.Rebuild(TIMES, t1, t3);
    var right := new Exp.NewBinOp(TIMES, t2, copy);
    assert lhs.Valid() && right.Valid() && lhs.Repr !! right.Repr;
    b.Rebuild(op, lhs, right);
  }

  /** R2R4R6 exactly as the source has it: the MINUS case puts the left operand in
      both places, and the negated constant in neither. */
  method ApplyR2R4R6AsWritten(b: Exp) returns (fired: bool, shared: bool)
    requires b.Valid()
    modifies b.Repr
    ensures shared == R6AsWritten(old(b.tree)).Some?
    ensures !shared ==>
      && fired == R2R4R6(old(b.tree)).Some?
      && b.Valid() && b.Repr == old(b.Repr)
      && b.tree == if fired then R2R4R6(old(b.tree)).value else old(b.tree)
    ensures shared ==>
      && fired && b.expType == BINOP && b.binopType == PLUS
      && b.lhs == b.rhs == old(b.lhs) && old(b.lhs).Valid() && !b.Valid()
      && old(b.lhs).tree == old(b.lhs.tree) && old(b.lhs).Repr == old(b.lhs.Repr) && b !in old(b.lhs).Repr
      && Bin(b.binopType, old(b.lhs).tree, old(b.lhs).tree) == R6AsWritten(old(b.tree)).value
  {
    if b.expType != BINOP || b.lhs.expType == CONSTANT || b.rhs.expType != CONSTANT {
      return false, false;
    }
    var c := b.rhs;
    match b.binopType
    case PLUS =>
      b.Rebuild(PLUS, c, b.lhs);
      return true, false;
    case TIMES =>
      b.Rebuild(TIMES, c, b.lhs);
      return true, false;
    case MINUS =>
      b.binopType := PLUS;
      b.rhs := b.lhs;
      c.val := (0 - c.val) % TWO64;
      return true, true;
    case OTHER(_) =>
      return false, false;
  }

  /** R7's assignments on a sum whose two operands are one and the same sum. */
  method R7OnShared(b: Exp)
    requires b.expType == BINOP && b.binopType == PLUS && b.lhs != null && b.lhs == b.rhs && b.lhs != b
    requires b.rhs.expType == BINOP && b.rhs.binopType == PLUS
    modifies b, b.rhs
    ensures b.lhs == old(b.lhs) && b.lhs.expType == BINOP && b.lhs.lhs == b.lhs
  {
    var rhs := b.rhs;
    var t1, t2, t3 := b.lhs, rhs.lhs, rhs.rhs;
    rhs.lhs := t1;
    rhs.rhs := t2;
    b.lhs := rhs;
    b.rhs := t3;
  }

  /** On (x + y) - c the code as written makes a cycle: R6 leaves both operands the
      same, and R7 on the next pass makes that node its own left operand. */
  method MakesCycle(b: Exp)
    requires b.Valid() && R6AsWritten(b.tree).Some? && IsBin(b.tree.lhs, PLUS)
    modifies b.Repr
    ensures b.lhs != null && b.lhs.lhs == b.lhs && !b.lhs.Valid()
  {
    assert b.lhs.expType == BINOP && b.lhs.binopType == PLUS;
    var _, _ := ApplyR2R4R6AsWritten(b);
    assert b.rhs.Valid() && b.rhs.tree.Bin?;
    R7OnShared(b);
  }

  // ----- the driver -----

  /** The visitor without its memo of already simplified nodes, with the intended R6
      or with R6 as written. A run as written is followed up to the first use of R6,
      which leaves a node shared; shared says that this has happened. */
  class ConstantSimplifyExp {
    const asWritten: bool
    var shared: bool
    var change: bool
    ghost var freed: set<Exp>

    constructor (asWritten: bool)
      ensures !change && !shared && freed == {} && this.asWritten == asWritten
    {
      this.asWritten, shared, change, freed := asWritten, false, false, {};
    }

    /** R1 to R8. */
    method TryCollect(b: Exp) returns (ret: Exp)
      requires b.Valid() && !change && !shared
      modifies this`change, this`shared, b.Repr
      ensures shared == (asWritten && R6AsWritten(old(b.tree)).Some?)
      ensures shared ==> ret == b && !b.Valid()
      ensures !shared ==>
        && ret.Valid() && change == CollectStep(old(b.tree)).Some?
        && ret.tree == (if change then CollectStep(old(b.tree)).value else old(b.tree))
        && b.Valid() && b.Repr == old(b.Repr)
        && (ret == b || (fresh(ret.Repr) && change))
    {
      change, ret := ApplyR1R3R5(b);
      if change { return; }
      if asWritten {
        change, shared := ApplyR2R4R6AsWritten(b);
      } else {
        change := ApplyR2R4R6(b);
      }
      if change { return; }
      change := ApplyR7R8(b, PLUS);
      if change { return; }
      change := ApplyR7R8(b, TIMES);
    }

    /** R12, R14 and R16. R9, R10, R11, R13 and R15 come to nothing: R2 and R4 have
        taken every node they look for. */
    method TryScale(b: Exp)
      requires b.Valid() && b.Repr !! freed && !change
      requires CollectStep(b.tree).None?
      modifies this`change, this`freed, b.Repr
      ensures b.Valid() && change == ScaleStep(old(b.tree)).Some?
      ensures b.tree == if change then ScaleStep(old(b.tree)).value else old(b.tree)
      ensures fresh(b.Repr - old(b.Repr)) && b.Repr !! freed
      ensures old(freed) <= freed <= old(freed) + old(b.Repr)
    {
      assert !ConstantRightGuard(b.tree) by { ShadowedRules(b.tree); }
      ghost var dead;
      change, dead := ApplyR12(b);
      freed := freed + dead;
      if change || b.expType != BINOP || b.lhs.expType != CONSTANT { return; }
      change := ApplyDistributeRight(b, PLUS);  // R14
      if change { return; }
      change := ApplyR16(b);
    }

    /** R17 and R18, or R19 and R20. */
    method TryExpand(b: Exp, op: BinopType)
      requires b.Valid() && b.Repr !! freed && !change && (op == PLUS || op == MINUS)
      modifies this`change, b.Repr
      ensures var step := if op == PLUS then ExpandSum(old(b.tree)) else ExpandDifference(old(b.tree));
        && b.Valid() && change == step.Some?
        && b.tree == if change then step.value else old(b.tree)
      ensures fresh(b.Repr - old(b.Repr)) && b.Repr !! freed
    {
      change := ApplyDistributeLeft(b, op);
      if change { return; }
      change := ApplyDistributeRight(b, op);
    }

    /** The rules in the order of the source, one of them at most. */
    method TryRules(b: Exp) returns (ret: Exp)
      requires b.Valid() && b.Repr !! freed && !change && !shared
      modifies this, b.Repr
      ensures shared == (asWritten && R6AsWritten(old(b.tree)).Some?)
      ensures shared ==> !b.Valid()
      ensures !shared ==>
        && ret.Valid() && change == RootStep(old(b.tree)).Some?
        && ret.tree == (if change then RootStep(old(b.tree)).value else old(b.tree))
        && fresh(ret.Repr - old(b.Repr)) && ret.Repr !! freed
        && old(freed) <= freed <= old(freed) + old(b.Repr)
        && (ret == b || (b.Valid() && b.Repr == old(b.Repr) && b.Repr !! ret.Repr))
    {
      ret := TryCollect(b);
      if change || shared { return; }
      TryScale(b);
      if change { return; }
      TryExpand(b, PLUS);
      if change { return; }
      TryExpand(b, MINUS);
    }

    method SimplifyOperands(b: Exp)
      requires b.Valid() && b.expType == BINOP && b.Repr !! freed && !change && !shared
      modifies this, b.Repr
      ensures shared == (asWritten && (ConstantDifference(old(b.tree).lhs) || ConstantDifference(old(b.tree).rhs)))
      ensures !shared ==>
        && b.Valid() && b.expType == BINOP
        && b.tree == Bin(old(b.tree).op, Simp(old(b.tree).lhs), Simp(old(b.tree).rhs))
        && change == (b.tree != old(b.tree))
        && fresh(b.Repr - old(b.Repr)) && b.Repr !! freed
        && old(freed) <= freed && fresh(freed - old(freed) - old(b.Repr))
      decreases Weight(b.tree), Inversions(b.tree), RightSizes(b.tree), 0
    {
      hide Weight, Inversions, RightSizes, Others, ConstantDifference;
      OperandLighter(b.tree);
      var y := b.rhs;
      var l := Simplify(b.lhs);
      if shared { return; }
      b.lhs := l;
      assert y.Valid() && y.Repr == old(y.Repr) && y.tree == old(y.tree) && y.Repr !! l.Repr;
      var r := Simplify(y);
      if shared { return; }
      assert l.Valid() && l.Repr !! r.Repr;
      b.Rebuild(b.binopType, l, r);
    }

    /** Simplifies both operands and then, if that changed nothing, applies the first
        rule that fits. */
    method VisitBinOp(b: Exp) returns (ret: Exp)
      requires b.Valid() && b.expType == BINOP && b.Repr !! freed && !change && !shared
      modifies this, b.Repr
      ensures shared == (asWritten && PassAsWritten(old(b.tree)).None?)
      ensures !shared ==>
        && ret.Valid() && ret.tree == Pass(old(b.tree)) && change == (ret.tree != old(b.tree))
        && fresh(ret.Repr - old(b.Repr)) && ret.Repr !! freed
        && old(freed) <= freed && fresh(freed - old(freed) - old(b.Repr))
        && (ret == b || (b.Valid() && fresh(b.Repr - old(b.Repr)) && b.Repr !! ret.Repr))
      decreases Weight(b.tree), Inversions(b.tree), RightSizes(b.tree), 1
    {
      ghost var t := b.tree;
      PassReaches(t);
      SimplifyOperands(b);
      ret := b;
      if shared { return; }
      if change {
        PassOfOperands(t);
        return;
      }
      PassOfRoot(t);
      ret := TryRules(b);
    }

    /** The body of the loop: accept, which does nothing on a leaf or a constant,
        and the destruction of a replaced root. */
    method Accept(o: Exp) returns (ret: Exp)
      requires o.Valid() && o.Repr !! freed && !change && !shared
      modifies this, o.Repr
      ensures shared == (asWritten && PassAsWritten(old(o.tree)).None?)
      ensures !shared ==>
        && ret.Valid() && ret.tree == Pass(old(o.tree)) && change == (ret.tree != old(o.tree))
        && fresh(ret.Repr - old(o.Repr)) && ret.Repr !! freed
        && old(freed) <= freed && fresh(freed - old(freed) - old(o.Repr))
      decreases Weight(o.tree), Inversions(o.tree), RightSizes(o.tree), 2
    {
      ret := o;
      if o.expType == BINOP {
        ret := VisitBinOp(o);
        if ret != o && !shared {
          freed := freed + o.Repr;
        }
      }
    }

    /** Passes over the tree until one changes nothing. As written, the run reaches R6
        if and only if the tree has a constant difference. */
    method Simplify(exp: Exp) returns (ret: Exp)
      requires exp.Valid() && exp.Repr !! freed && !shared
      modifies this, exp.Repr
      ensures shared == (asWritten && ConstantDifference(old(exp.tree)))
      ensures !shared ==>
        && ret.Valid() && ret.tree == Simp(old(exp.tree))
        && change == (old(change) || ret.tree != old(exp.tree))
        && fresh(ret.Repr - old(exp.Repr)) && ret.Repr !! freed
        && old(freed) <= freed && fresh(freed - old(freed) - old(exp.Repr))
      decreases Weight(exp.tree), Inversions(exp.tree), RightSizes(exp.tree), 3
    {
      hide ConstantDifference, PassAsWritten, Weight, Inversions, RightSizes, Constants, Others, Size, Simp, Pass;
      var outerChange := change;
      ghost var t := exp.tree;
      ret := exp;
      while true
        invariant !shared && ret.Valid() && fresh(ret.Repr - old(exp.Repr)) && ret.Repr !! freed
        invariant old(freed) <= freed && fresh(freed - old(freed) - old(exp.Repr))
        invariant Reached(ret.tree, t)
        invariant asWritten ==> ConstantDifference(ret.tree) == ConstantDifference(t)
        invariant outerChange == (old(change) || ret.tree != t)
        decreases Weight(ret.tree), Inversions(ret.tree), RightSizes(ret.tree)
      {
        change := false;
        SimplifyStep(ret.tree, t);
        PassDecides(ret.tree);
        ret := Accept(ret);
        if shared { return; }
        outerChange := outerChange || change;
        if !change { break; }
      }
      change := outerChange;
    }
  }
}
