/** The moves that libasmir/src/vex/irtoir-i386.cpp emits for x86g_calculate_RCL and
    x86g_calculate_RCR, and what running them computes. */
module RotateCode {
  import opened Arith
  import opened Powers
  import opened Bits
  import opened FlagExprs
  import opened FlagMath
  import opened FlagFormulas
  import opened Rotate

  const ROT := Temp(Local(0), 32)
  const ANSWER := Temp(Local(1), 32)
  const NEW_EFLAGS := Temp(Local(2), 32)
  const RESULT := Temp(Local(3), 64)

  /** All bits but CF and OF, and their positions. */
  const REST_MASK := C32(0xffff_f7fe)
  const CF_POS := C32(0)
  const OF_POS := C32(11)

  // ----- the expressions -----

  /** rot_amt = (count & 31) mod (w + 1) */
  function CountExp(w: nat, rotAmt: Exp): Exp { BinOp(MOD, BinOp(BITAND, rotAmt, C32(31)), C32(w + 1)) }

  function CarryIn(): Exp { Cast(Temp(Flag(CF), 1), 32, CAST_UNSIGNED) }

  function CarryInPos(left: bool, w: nat): Exp {
    if left then BinOp(MINUS, ROT, C32(1)) else BinOp(MINUS, C32(w), ROT)
  }

  function CarryOutPos(left: bool, w: nat): Exp {
    if left then BinOp(MINUS, C32(w), ROT) else BinOp(MINUS, ROT, C32(1))
  }

  function Same(left: bool): BinopType { if left then LSHIFT else RSHIFT }

  function Reverse(left: bool): BinopType { if left then RSHIFT else LSHIFT }

  /** (arg sh rot) | (cf << carry_in_pos) | (arg rsh (w + 1 - rot)) */
  function AnswerExp(left: bool, w: nat, arg: Exp): Exp {
    BinOp(BITOR, BinOp(Same(left), arg, ROT),
          BinOp(BITOR, BinOp(LSHIFT, CarryIn(), CarryInPos(left, w)),
                       BinOp(Reverse(left), arg, BinOp(MINUS, C32(w + 1), ROT))))
  }

  function NewCf(left: bool, w: nat, arg: Exp): Exp { Cast(BinOp(RSHIFT, arg, CarryOutPos(left, w)), 1, CAST_LOW) }

  function NewOf(left: bool, w: nat, arg: Exp): Exp
    requires w >= 1
  {
    Xor2(GetBit(ANSWER, w - 1), NewCf(left, w, arg))
  }

  function NewEflags(left: bool, w: nat, arg: Exp, eflagsIn: Exp): Exp
    requires w >= 1
  {
    BinOp(BITOR, BinOp(BITAND, eflagsIn, REST_MASK),
          BinOp(BITOR, BinOp(LSHIFT, Cast(NewOf(left, w, arg), 32, CAST_UNSIGNED), OF_POS),
                       BinOp(LSHIFT, Cast(NewCf(left, w, arg), 32, CAST_UNSIGNED), CF_POS)))
  }

  /** The eflags above the answer, in 64 bits. */
  function PackExp(): Exp {
    BinOp(BITOR, BinOp(LSHIFT, Cast(NEW_EFLAGS, 64, CAST_UNSIGNED), C32(32)), Cast(ANSWER, 64, CAST_UNSIGNED))
  }

  /** The move before the conditional jump, the two blocks it chooses from, and the
      move after they meet. */
  datatype Code = Code(prefix: seq<Stmt>, nonZero: seq<Stmt>, zero: seq<Stmt>, tail: seq<Stmt>)

  function RunCode(code: Code, env: Env): Env {
    var e := Exec(code.prefix, env);
    Exec(code.tail, if Ev(BinOp(EQ, ROT, C32(0)), e) != 0 then Exec(code.zero, e) else Exec(code.nonZero, e))
  }

  function EmittedCode(left: bool, w: nat, arg: Exp, rotAmt: Exp, eflagsIn: Exp): Code
    requires w >= 1
  {
    Code([Move(Local(0), CountExp(w, rotAmt))],
         [Move(Local(1), AnswerExp(left, w, arg)), Move(Local(2), NewEflags(left, w, arg, eflagsIn))],
         [Move(Local(1), arg), Move(Local(2), eflagsIn)],
         [Move(Local(3), PackExp())])
  }

  // ----- the count -----

  predicate RotateWidth(w: nat) { w == 8 || w == 16 || w == 32 }

  /** The count after masking and reduction. */
  function Count(w: nat, count: nat): (n: nat)
    ensures RotateWidth(w) ==> n <= w && n < 32
  {
    ModuloIs(count % 32, w + 1);
    ModuloFits(count % 32, w + 1);
    Modulo(count % 32, w + 1)
  }

  lemma {:induction false} EvCount(w: nat, rotAmt: Exp, env: Env)
    ensures Ev(CountExp(w, rotAmt), env) == Count(w, Ev(rotAmt, env))
  {
    hide Ev, EvBinOp, EvUnOp, And, Pow2, Modulo;
    SmallPowers();
    Masked(Ev(rotAmt, env), 5);
    EvConstant(32, 31, env);
    EvConstant(32, w + 1, env);
    EvAnd(rotAmt, C32(31), env);
    EvMod(BinOp(BITAND, rotAmt, C32(31)), C32(w + 1), env);
  }

  /** The environment in which the two blocks run. */
  ghost predicate AtJump(e: Env, env: Env, w: nat, n: nat) {
    SameInputs(env, e) && Local(0) in e && e[Local(0)] == n && n <= w <= 32 && Get(e, CF) == Get(env, CF)
  }

  lemma {:induction false} FitsWord(n: nat)
    requires n < 64
    ensures n < Pow2(32) && LowPart(n, 32) == n
  {
    hide Pow2, LowPart;
    SmallPowers();
    Pow2Mono(6, 32);
    LowPartSmall(n, 32);
  }

  lemma {:induction false} EvRot(e: Env, env: Env, w: nat, n: nat)
    requires AtJump(e, env, w, n)
    ensures Ev(ROT, e) == n
    ensures Ev(BinOp(MINUS, C32(w), ROT), e) == w - n && Ev(BinOp(MINUS, C32(w + 1), ROT), e) == w + 1 - n
    ensures n >= 1 ==> Ev(BinOp(MINUS, ROT, C32(1)), e) == n - 1
  {
    hide Ev, EvBinOp, EvUnOp, LowPart, Pow2, Get, SameInputs;
    FitsWord(n);
    FitsWord(w - n);
    FitsWord(w + 1 - n);
    EvLocal(0, 32, e, n);
    EvConstant(32, w, e);
    EvConstant(32, w + 1, e);
    EvConstant(32, 1, e);
    EvMinus(C32(w), ROT, e);
    EvMinus(C32(w + 1), ROT, e);
    EvMinus(ROT, C32(1), e);
    if n >= 1 { FitsWord(n - 1); }
  }

  lemma {:induction false} EvPositions(left: bool, e: Env, env: Env, w: nat, n: nat)
    requires AtJump(e, env, w, n) && n >= 1
    ensures Ev(CarryInPos(left, w), e) == if left then n - 1 else w - n
    ensures Ev(CarryOutPos(left, w), e) == if left then w - n else n - 1
  {
    hide Ev, EvBinOp, EvUnOp, LowPart, Pow2, AtJump;
    EvRot(e, env, w, n);
  }

  lemma {:induction false} JumpTaken(e: Env, n: nat)
    requires Local(0) in e && e[Local(0)] == n && n < 33
    ensures Ev(BinOp(EQ, ROT, C32(0)), e) == Truth(n == 0)
  {
    hide Ev, EvBinOp, EvUnOp, LowPart, Pow2;
    FitsWord(n);
    EvLocal(0, 32, e, n);
    EvConstant(32, 0, e);
    EvEqual(ROT, C32(0), e);
  }

  // ----- the answer -----

  lemma {:induction false} EvShiftOp(op: BinopType, a: Exp, b: Exp, env: Env)
    requires Shift(op)
    ensures Ev(BinOp(op, a, b), env) == Apply(op, Width(a), Ev(a, env), Ev(b, env))
  {
    hide Ev, EvBinOp, EvUnOp, Apply, Width;
    if op == LSHIFT { EvShl(a, b, env); } else { EvShrOp(a, b, env); }
  }

  function Answer(left: bool, w: nat, a: nat, c: nat, n: nat): nat
    requires 1 <= n <= w <= 32
  {
    if left then LeftAnswer(w, a, c, n) else RightAnswer(w, a, c, n)
  }

  lemma {:induction false} EvAnswer(left: bool, w: nat, n: nat, arg: Exp, env: Env, e: Env)
    requires 1 <= n <= w <= 32 && AtJump(e, env, w, n) && Operand(arg, 32, w, env)
    ensures Ev(AnswerExp(left, w, arg), e) == Answer(left, w, Ev(arg, env), Get(env, CF), n)
  {
    hide Ev, EvBinOp, EvUnOp, LowPart, Pow2, Apply, Get, SameInputs, InputsOnly, Typed;
    EvRot(e, env, w, n);
    EvPositions(left, e, env, w, n);
    EvCast(Temp(Flag(CF), 1), 32, e);
    assert Ev(CarryIn(), e) == Get(env, CF) by { EvCarryFlag(e); }
    InputsKeep(arg, env, e);
    var back := BinOp(MINUS, C32(w + 1), ROT);
    EvShiftOp(Same(left), arg, ROT, e);
    EvShiftOp(LSHIFT, CarryIn(), CarryInPos(left, w), e);
    EvShiftOp(Reverse(left), arg, back, e);
    EvOr(BinOp(LSHIFT, CarryIn(), CarryInPos(left, w)), BinOp(Reverse(left), arg, back), e);
    EvOr(BinOp(Same(left), arg, ROT),
         BinOp(BITOR, BinOp(LSHIFT, CarryIn(), CarryInPos(left, w)), BinOp(Reverse(left), arg, back)), e);
  }

  lemma {:induction false} EvCarryFlag(e: Env)
    ensures Ev(Temp(Flag(CF), 1), e) == Get(e, CF)
  {
  }

  // ----- the carry, the overflow bit and the other eflags -----

  lemma {:induction false} EvNewCf(left: bool, w: nat, n: nat, arg: Exp, env: Env, e: Env)
    requires 1 <= n <= w <= 32 && AtJump(e, env, w, n) && Operand(arg, 32, w, env)
    ensures Ev(NewCf(left, w, arg), e) == Bit(Ev(arg, env), if left then w - n else n - 1)
  {
    hide Ev, EvBinOp, EvUnOp, LowPart, Pow2, Bit, ShiftedRight, Get, SameInputs, InputsOnly, Typed;
    var k := if left then w - n else n - 1;
    EvPositions(left, e, env, w, n);
    InputsKeep(arg, env, e);
    EvShrOp(arg, CarryOutPos(left, w), e);
    EvLowBit(BinOp(RSHIFT, arg, CarryOutPos(left, w)), e);
    ShiftedBit(Ev(arg, env), k);
  }

  /** Bit k of the eflags that the code assembles from the old ones and two new bits. */
  function Assembled(before: nat, of: nat, cf: nat): nat {
    Or(And(before, 0xffff_f7fe), Or(Apply(LSHIFT, 32, of, 11), Apply(LSHIFT, 32, cf, 0)))
  }

  lemma {:induction false} BitOfZero(k: nat)
    ensures Bit(0, k) == 0
  {
    hide Bit, Pow2;
    AboveTop(0, k);
  }

  /** REST_MASK has every bit but 0 and 11. */
  lemma {:induction false} MaskBit(k: nat)
    requires k < 32
    ensures Bit(0xffff_f7fe, k) == if k == 0 || k == 11 then 0 else 1
  {
    hide Bit, Pow2;
    SmallPowers();
    MiddlePowers();
    BitOfJoin(0xf_ffff, 0x7fe, 12, k);
    if k >= 12 {
      BitOfOnes(20, k - 12);
    } else {
      BitOfJoin(0x3ff, 0, 1, k);
      BitOfZero(0);
      if 1 <= k < 11 { BitOfOnes(10, k - 1); }
      if k == 11 { AboveTop(0x3ff, 10); }
    }
  }

  lemma {:induction false} MiddlePowers()
    ensures Pow2(10) == 0x400 && Pow2(11) == 0x800 && Pow2(12) == 0x1000 && Pow2(20) == 0x10_0000
  {
    hide Pow2;
    SmallPowers();
    Pow2Add(8, 2);
    Pow2Add(8, 3);
    Pow2Add(8, 4);
    Pow2Add(12, 8);
  }

  /** A single bit shifted to position p. */
  lemma {:induction false} ShiftedTo(b: nat, p: nat, k: nat)
    requires b <= 1 && p < 32
    ensures Bit(Apply(LSHIFT, 32, b, p), k) == if k == p then b else 0
  {
    hide Bit, Pow2, Apply;
    CarryShift(b, p);
    BitOfJoin(b, 0, p, k);
    if k < p {
      BitOfZero(k);
    } else if k == p {
      LowestBit(b);
    } else {
      SmallPowers();
      Pow2Mono(1, k - p);
      AboveTop(b, k - p);
    }
  }

  lemma {:induction false} LowestBit(b: nat)
    requires b <= 1
    ensures Bit(b, 0) == b
  {
    BitZero(b);
  }

  lemma {:induction false} AssembledBits(before: nat, of: nat, cf: nat, k: nat)
    requires of <= 1 && cf <= 1 && k < 32
    ensures Bit(Assembled(before, of, cf), k) == if k == 0 then cf else if k == 11 then of else Bit(before, k)
  {
    hide Bit, And, Or, Apply;
    OrBit(And(before, 0xffff_f7fe), Or(Apply(LSHIFT, 32, of, 11), Apply(LSHIFT, 32, cf, 0)), k);
    OrBit(Apply(LSHIFT, 32, of, 11), Apply(LSHIFT, 32, cf, 0), k);
    AndBit(before, 0xffff_f7fe, k);
    MaskBit(k);
    ShiftedTo(of, 11, k);
    ShiftedTo(cf, 0, k);
  }

  lemma {:induction false} EvAssembled(eflagsIn: Exp, of: Exp, cf: Exp, e: Env)
    ensures Ev(BinOp(BITOR, BinOp(BITAND, eflagsIn, REST_MASK),
                     BinOp(BITOR, BinOp(LSHIFT, Cast(of, 32, CAST_UNSIGNED), OF_POS),
                                  BinOp(LSHIFT, Cast(cf, 32, CAST_UNSIGNED), CF_POS))), e)
         == Assembled(Ev(eflagsIn, e), Ev(of, e), Ev(cf, e))
  {
    hide Ev, EvBinOp, EvUnOp, And, Or, Apply;
    var ofBit := BinOp(LSHIFT, Cast(of, 32, CAST_UNSIGNED), OF_POS);
    var cfBit := BinOp(LSHIFT, Cast(cf, 32, CAST_UNSIGNED), CF_POS);
    EvConstant(32, 0xffff_f7fe, e);
    EvConstant(32, 11, e);
    EvConstant(32, 0, e);
    EvCast(of, 32, e);
    EvCast(cf, 32, e);
    EvShl(Cast(of, 32, CAST_UNSIGNED), OF_POS, e);
    EvShl(Cast(cf, 32, CAST_UNSIGNED), CF_POS, e);
    EvAnd(eflagsIn, REST_MASK, e);
    EvOr(ofBit, cfBit, e);
    EvOr(BinOp(BITAND, eflagsIn, REST_MASK), BinOp(BITOR, ofBit, cfBit), e);
  }

  /** The new eflags: CF is the bit rotated out, OF its exclusive or with the answer's
      top bit, and the others are the old ones. */
  ghost predicate NewFlags(before: nat, after: nat, top: nat, carry: nat) {
    && Bit(after, 0) == carry && Bit(after, 11) == Truth(top != carry)
    && forall k :: 0 < k < 32 && k != 11 ==> Bit(after, k) == Bit(before, k)
  }

  lemma {:induction false} AssembledFlags(before: nat, of: nat, top: nat, carry: nat)
    requires top <= 1 && carry <= 1 && of == Truth(top != carry)
    ensures NewFlags(before, Assembled(before, of, carry), top, carry)
  {
    hide Bit, Assembled;
    forall k | 0 <= k < 32
      ensures Bit(Assembled(before, of, carry), k) == if k == 0 then carry else if k == 11 then of else Bit(before, k)
    {
      AssembledBits(before, of, carry, k);
    }
  }

  lemma {:induction false} EvNewEflags(left: bool, w: nat, n: nat, arg: Exp, eflagsIn: Exp, top: nat, env: Env, e: Env)
    requires 1 <= n <= w <= 32 && AtJump(e, env, w, n) && Operand(arg, 32, w, env) && InputsOnly(eflagsIn)
    requires top == Bit(Ev(ANSWER, e), w - 1)
    ensures NewFlags(Ev(eflagsIn, env), Ev(NewEflags(left, w, arg, eflagsIn), e), top,
                     Bit(Ev(arg, env), if left then w - n else n - 1))
  {
    hide Ev, EvBinOp, EvUnOp, LowPart, Pow2, Bit, Xor, NewFlags, Assembled, AtJump, Typed;
    var carry := Bit(Ev(arg, env), if left then w - n else n - 1);
    EvNewCf(left, w, n, arg, env, e);
    EvGetBit(ANSWER, w - 1, e);
    EvXor(GetBit(ANSWER, w - 1), NewCf(left, w, arg), e);
    XorBits(top, carry);
    EvAssembled(eflagsIn, NewOf(left, w, arg), NewCf(left, w, arg), e);
    JumpKeepsInputs(e, env, w, n);
    InputsKeep(eflagsIn, env, e);
    AssembledFlags(Ev(eflagsIn, env), Truth(top != carry), top, carry);
  }

  lemma {:induction false} JumpKeepsInputs(e: Env, env: Env, w: nat, n: nat)
    requires AtJump(e, env, w, n)
    ensures SameInputs(env, e)
  {
  }

  // ----- running the code -----

  /** The two halves of the 64-bit result. */
  datatype Outcome = Outcome(answer: nat, eflags: nat)

  function Result(e: Env): Outcome {
    var r := Ev(RESULT, e);
    Outcome(LowPart(r, 32), ShiftedRight(r, 32))
  }

  function Rotated(left: bool, w: nat, v: nat, n: nat): nat
    requires n <= w + 1
  {
    if left then RotL(v, n, w + 1) else RotR(v, n, w + 1)
  }

  /** What a rotation by n is to leave of operand a, carry c and eflags f. */
  ghost predicate Rotates(left: bool, w: nat, a: nat, c: nat, f: nat, n: nat, r: Outcome)
    requires 1 <= w && n <= w
  {
    if n == 0 then r == Outcome(a, f)
    else
      && Joined(w, LowPart(r.answer, w), Bit(r.eflags, 0)) == Rotated(left, w, Joined(w, a, c), n)
      && NewFlags(f, r.eflags, Bit(r.answer, w - 1), Bit(r.eflags, 0))
  }

  lemma {:induction false} ExecOne(s: Stmt, e: Env)
    ensures Exec([s], e) == Assign(s, e)
  {
    ExecPush([], s, e);
    assert [] + [s] == [s];
  }

  lemma {:induction false} ExecTwo(s: Stmt, t: Stmt, e: Env)
    ensures Exec([s, t], e) == Assign(t, Assign(s, e))
  {
    ExecOne(s, e);
    ExecPush([s], t, e);
    assert [s] + [t] == [s, t];
  }

  lemma {:induction false} EvStored(i: nat, e: Env)
    requires Local(i) in e
    ensures Ev(Temp(Local(i), 32), e) == LowPart(e[Local(i)], 32)
  {
  }

  lemma {:induction false} ShiftedUp(f: nat)
    requires f < Pow2(32)
    ensures Apply(LSHIFT, 64, f, 32) == f * Pow2(32)
  {
    hide LowPart, ShiftedLeft, Pow2;
    Pow2Add(32, 32);
    ShiftedLeftIs(f, 32);
    MulStrict(f, Pow2(32), Pow2(32));
    LowPartSmall(f * Pow2(32), 64);
  }

  /** Eflags and answer packed, and taken apart again. */
  lemma {:induction false} PackedParts(f: nat, a: nat)
    requires f < Pow2(32) && a < Pow2(32)
    ensures var p := Or(Apply(LSHIFT, 64, f, 32), a);
      p < Pow2(64) && LowPart(p, 32) == a && ShiftedRight(p, 32) == f
  {
    hide LowPart, ShiftedRight, Pow2, Or, Apply;
    ShiftedUp(f);
    OrDisjoint(f, a, 32);
    ShiftedSmall(f, 32, a, 32);
    var p := f * Pow2(32) + a;
    JoinParts(f, a, 32);
    LowPartIs(p, 32);
    ShiftedRightIs(p, 32);
  }

  lemma {:induction false} EvPacked(e: Env)
    ensures Ev(PackExp(), e) == Or(Apply(LSHIFT, 64, Ev(NEW_EFLAGS, e), 32), Ev(ANSWER, e))
  {
    hide Ev, EvBinOp, EvUnOp, Or, Apply;
    var high := Cast(NEW_EFLAGS, 64, CAST_UNSIGNED);
    EvCast(NEW_EFLAGS, 64, e);
    EvCast(ANSWER, 64, e);
    EvConstant(32, 32, e);
    EvShl(high, C32(32), e);
    EvOr(BinOp(LSHIFT, high, C32(32)), Cast(ANSWER, 64, CAST_UNSIGNED), e);
  }

  lemma {:induction false} TailPacks(e: Env)
    ensures Result(Exec([Move(Local(3), PackExp())], e)) == Outcome(Ev(ANSWER, e), Ev(NEW_EFLAGS, e))
  {
    hide Ev, EvBinOp, EvUnOp, Exec, Or, Apply, LowPart, ShiftedRight, Pow2;
    var f, a := Ev(NEW_EFLAGS, e), Ev(ANSWER, e);
    EvFits(NEW_EFLAGS, e);
    EvFits(ANSWER, e);
    PackedParts(f, a);
    EvPacked(e);
    var p := Or(Apply(LSHIFT, 64, f, 32), a);
    ExecOne(Move(Local(3), PackExp()), e);
    var e' := e[Local(3) := p];
    EvLocal(3, 64, e', p);
  }

  lemma {:induction false} LowBitsSame(x: nat, k: nat)
    requires k < 32
    ensures Bit(LowPart(x, 32), k) == Bit(x, k)
  {
    hide Bit, LowPart, Pow2;
    LowPartIs(x, 32);
    LowBits(x, 32, k);
  }

  lemma {:induction false} NewFlagsStored(before: nat, after: nat, top: nat, carry: nat)
    requires NewFlags(before, after, top, carry)
    ensures NewFlags(before, LowPart(after, 32), top, carry)
  {
    hide Bit, LowPart;
    forall k | 0 <= k < 32 ensures Bit(LowPart(after, 32), k) == Bit(after, k) {
      LowBitsSame(after, k);
    }
  }

  lemma {:induction false} AnswerRotates(left: bool, w: nat, a: nat, c: nat, n: nat, x: nat)
    requires 1 <= n <= w <= 32 && n < 32 && a < Pow2(w) && c <= 1 && x == Answer(left, w, a, c, n)
    ensures Joined(w, LowPart(LowPart(x, 32), w), Bit(a, if left then w - n else n - 1))
         == Rotated(left, w, Joined(w, a, c), n)
  {
    hide Bit, LowPart, Pow2, RotL, RotR, LeftAnswer, RightAnswer, Joined;
    LowTwice(x, w, 32);
    LowPartIs(x, w);
    if left { RotateLeftCorrect(w, a, c, n); } else { RotateRightCorrect(w, a, c, n); }
  }

  lemma {:induction false} AtJumpKept(e: Env, env: Env, w: nat, n: nat, x: nat)
    requires AtJump(e, env, w, n)
    ensures AtJump(e[Local(1) := x], env, w, n)
  {
    hide Ev, EvBinOp, EvUnOp, SameInputs;
    LocalsKeepInputs(e, Local(1), x);
    SameInputsTrans(env, e, e[Local(1) := x]);
    FlagStays(e, Local(1), x);
  }

  lemma {:induction false} FlagStays(e: Env, v: Var, x: nat)
    requires v.Local?
    ensures Get(e[v := x], CF) == Get(e, CF)
  {
  }

  /** The block for a count that is not zero. */
  lemma {:induction false} NonZeroBlock(left: bool, w: nat, arg: Exp, eflagsIn: Exp, n: nat, env: Env, e: Env)
    requires 1 <= n <= w <= 32 && n < 32 && AtJump(e, env, w, n) && Operand(arg, 32, w, env) && InputsOnly(eflagsIn)
    ensures
      var e2 := Exec([Move(Local(1), AnswerExp(left, w, arg)), Move(Local(2), NewEflags(left, w, arg, eflagsIn))], e);
      Rotates(left, w, Ev(arg, env), Get(env, CF), Ev(eflagsIn, env), n, Outcome(Ev(ANSWER, e2), Ev(NEW_EFLAGS, e2)))
  {
    hide Ev, EvBinOp, EvUnOp, Exec, LowPart, Pow2, Bit, AtJump, NewFlags, Answer, Joined, Rotated;
    var first, second := Move(Local(1), AnswerExp(left, w, arg)), Move(Local(2), NewEflags(left, w, arg, eflagsIn));
    ExecTwo(first, second, e);
    var a, c, k := Ev(arg, env), Get(env, CF), if left then w - n else n - 1;
    EvAnswer(left, w, n, arg, env, e);
    var x := Answer(left, w, a, c, n);
    var e1 := e[Local(1) := x];
    AtJumpKept(e, env, w, n, x);
    EvStored(1, e1);
    var top := Bit(LowPart(x, 32), w - 1);
    EvNewEflags(left, w, n, arg, eflagsIn, top, env, e1);
    var y := Ev(NewEflags(left, w, arg, eflagsIn), e1);
    var e2 := e1[Local(2) := y];
    EvStored(1, e2);
    EvStored(2, e2);
    NewFlagsStored(Ev(eflagsIn, env), y, top, Bit(a, k));
    NewFlagsCarry(Ev(eflagsIn, env), LowPart(y, 32), top, Bit(a, k));
    FlagFits(env, CF);
    AnswerRotates(left, w, a, c, n, x);
  }

  lemma {:induction false} NewFlagsCarry(before: nat, after: nat, top: nat, carry: nat)
    requires NewFlags(before, after, top, carry)
    ensures Bit(after, 0) == carry
  {
  }

  /** The block for a count of zero. */
  lemma {:induction false} ZeroBlock(w: nat, arg: Exp, eflagsIn: Exp, env: Env, e: Env)
    requires w <= 32 && SameInputs(env, e) && Operand(arg, 32, w, env) && Operand(eflagsIn, 32, 32, env)
    ensures var e2 := Exec([Move(Local(1), arg), Move(Local(2), eflagsIn)], e);
      Ev(ANSWER, e2) == Ev(arg, env) && Ev(NEW_EFLAGS, e2) == Ev(eflagsIn, env)
  {
    hide Ev, EvBinOp, EvUnOp, Exec, LowPart, Pow2, SameInputs, InputsOnly;
    ExecTwo(Move(Local(1), arg), Move(Local(2), eflagsIn), e);
    var a, f := Ev(arg, env), Ev(eflagsIn, env);
    InputsKeep(arg, env, e);
    var e1 := e[Local(1) := a];
    LocalsKeepInputs(e, Local(1), a);
    SameInputsTrans(env, e, e1);
    InputsKeep(eflagsIn, env, e1);
    var e2 := e1[Local(2) := f];
    Pow2Mono(w, 32);
    EvLocal(1, 32, e2, a);
    EvLocal(2, 32, e2, f);
  }

  lemma {:induction false} PrefixReachesJump(w: nat, rotAmt: Exp, env: Env)
    requires RotateWidth(w)
    ensures AtJump(Exec([Move(Local(0), CountExp(w, rotAmt))], env), env, w, Count(w, Ev(rotAmt, env)))
  {
    hide Ev, EvBinOp, EvUnOp, Exec, LowPart, Pow2, SameInputs;
    var n := Count(w, Ev(rotAmt, env));
    ExecOne(Move(Local(0), CountExp(w, rotAmt)), env);
    EvCount(w, rotAmt, env);
    LocalsKeepInputs(env, Local(0), n);
    FlagStays(env, Local(0), n);
  }

  // ----- the translation -----

  /** For every count the emitted code rotates carry:operand, or leaves both alone,
      and changes no eflags but CF and OF. */
  lemma {:induction false} CodeRotates(left: bool, w: nat, arg: Exp, rotAmt: Exp, eflagsIn: Exp, env: Env)
    requires RotateWidth(w) && Operand(arg, 32, w, env) && Operand(eflagsIn, 32, 32, env)
    ensures Rotates(left, w, Ev(arg, env), Get(env, CF), Ev(eflagsIn, env), Count(w, Ev(rotAmt, env)),
                    Result(RunCode(EmittedCode(left, w, arg, rotAmt, eflagsIn), env)))
  {
    hide Ev, EvBinOp, EvUnOp, Exec, LowPart, Pow2, SameInputs, Joined, Rotated, NewFlags, AtJump, Result;
    var n := Count(w, Ev(rotAmt, env));
    var code := EmittedCode(left, w, arg, rotAmt, eflagsIn);
    var e := Exec(code.prefix, env);
    PrefixReachesJump(w, rotAmt, env);
    JumpFacts(e, env, w, n);
    JumpTaken(e, n);
    TailPacks(Exec(code.zero, e));
    TailPacks(Exec(code.nonZero, e));
    if n == 0 {
      ZeroBlock(w, arg, eflagsIn, env, e);
    } else {
      NonZeroBlock(left, w, arg, eflagsIn, n, env, e);
    }
  }

  lemma {:induction false} JumpFacts(e: Env, env: Env, w: nat, n: nat)
    requires AtJump(e, env, w, n)
    ensures SameInputs(env, e) && Local(0) in e && e[Local(0)] == n
  {
  }

  /** x86g_calculate_RCL and x86g_calculate_RCR. */
  method TranslateRotate(left: bool, w: nat, arg: Exp, rotAmt: Exp, eflagsIn: Exp, ghost env: Env) returns (code: Code)
    requires RotateWidth(w) && Operand(arg, 32, w, env) && Operand(eflagsIn, 32, 32, env)
    ensures code == EmittedCode(left, w, arg, rotAmt, eflagsIn)
    ensures Rotates(left, w, Ev(arg, env), Get(env, CF), Ev(eflagsIn, env), Count(w, Ev(rotAmt, env)),
                    Result(RunCode(code, env)))
  {
    hide Ev, Exec, Rotates, Result, RunCode, Operand;
    var prefix := [Move(Local(0), CountExp(w, rotAmt))];
    var nonZero := [Move(Local(1), AnswerExp(left, w, arg))];
    nonZero := nonZero + [Move(Local(2), NewEflags(left, w, arg, eflagsIn))];
    var zero := [Move(Local(1), arg)];
    zero := zero + [Move(Local(2), eflagsIn)];
    code := Code(prefix, nonZero, zero, [Move(Local(3), PackExp())]);
    CodeRotates(left, w, arg, rotAmt, eflagsIn, env);
  }

  lemma {:induction false} RotatedByNothing(left: bool, w: nat, v: nat)
    requires v < Pow2(w + 1)
    ensures Rotated(left, w, v, 0) == v
  {
    hide Pow2;
    SmallPowers();
    ModSmall(v, Pow2(w + 1));
  }

  /** Operand and carry as one number, after the code has run. */
  lemma {:induction false} RotatesJoined(left: bool, w: nat, a: nat, c: nat, f: nat, n: nat, r: Outcome)
    requires 1 <= w && n <= w && a < Pow2(w) && c <= 1 && Rotates(left, w, a, c, f, n, r) && (n == 0 ==> Bit(f, 0) == c)
    ensures Joined(w, LowPart(r.answer, w), Bit(r.eflags, 0)) == Rotated(left, w, Joined(w, a, c), n)
  {
    hide Bit, LowPart, Pow2, Joined, Rotated, NewFlags;
    if n == 0 {
      JoinedFits(w, a, c);
      RotatedByNothing(left, w, Joined(w, a, c));
      LowPartSmall(a, w);
    }
  }

  lemma {:induction false} JoinedInjective(w: nat, a: nat, c: nat, a': nat, c': nat)
    requires a < Pow2(w) && a' < Pow2(w) && Joined(w, a, c) == Joined(w, a', c')
    ensures a == a' && c == c'
  {
    hide Pow2;
    JoinParts(c, a, w);
    JoinParts(c', a', w);
  }

  /** The RCR code, run by the same count on what the RCL code left of operand, carry
      and eflags, restores operand and carry. */
  lemma {:induction false} RightUndoesLeft(w: nat, arg: Exp, rotAmt: Exp, eflagsIn: Exp, env: Env,
                                           arg': Exp, rotAmt': Exp, eflagsIn': Exp, env': Env)
    requires RotateWidth(w) && Operand(arg, 32, w, env) && Operand(eflagsIn, 32, 32, env)
    requires Count(w, Ev(rotAmt, env)) == 0 ==> Bit(Ev(eflagsIn, env), 0) == Get(env, CF)
    requires Operand(arg', 32, w, env') && Operand(eflagsIn', 32, 32, env') && Ev(rotAmt', env') == Ev(rotAmt, env)
    requires var r := Result(RunCode(EmittedCode(true, w, arg, rotAmt, eflagsIn), env));
      Ev(arg', env') == LowPart(r.answer, w) && Ev(eflagsIn', env') == r.eflags && Get(env', CF) == Bit(r.eflags, 0)
    ensures var r' := Result(RunCode(EmittedCode(false, w, arg', rotAmt', eflagsIn'), env'));
      LowPart(r'.answer, w) == Ev(arg, env) && Bit(r'.eflags, 0) == Get(env, CF)
  {
    hide Ev, EvBinOp, EvUnOp, Exec, LowPart, Pow2, Bit, Joined, Rotates, Result, RunCode, Typed, InputsOnly, RotL, RotR;
    var n, a, c := Count(w, Ev(rotAmt, env)), Ev(arg, env), Get(env, CF);
    var r := Result(RunCode(EmittedCode(true, w, arg, rotAmt, eflagsIn), env));
    var r' := Result(RunCode(EmittedCode(false, w, arg', rotAmt', eflagsIn'), env'));
    CodeRotates(true, w, arg, rotAmt, eflagsIn, env);
    CodeRotates(false, w, arg', rotAmt', eflagsIn', env');
    FlagFits(env, CF);
    FlagFits(env', CF);
    RotatesJoined(true, w, a, c, Ev(eflagsIn, env), n, r);
    RotatesJoined(false, w, Ev(arg', env'), Get(env', CF), r.eflags, n, r');
    JoinedFits(w, a, c);
    RotRUndoesRotL(Joined(w, a, c), n, w + 1);
    LowPartFits(r'.answer, w);
    JoinedInjective(w, a, c, LowPart(r'.answer, w), Bit(r'.eflags, 0));
  }
}
