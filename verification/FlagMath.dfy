/** Carry, overflow, auxiliary carry and parity as properties of integers, and the bit
    formulas that compute them. */
module FlagMath {
  import opened Arith
  import opened Powers
  import opened Bits
  import opened FlagExprs

  predicate InUnsigned(w: nat, x: int) { 0 <= x < Pow2(w) }

  predicate InSigned(w: nat, x: int)
    requires w >= 1
  {
    0 - Pow2(w - 1) <= x < Pow2(w - 1)
  }

  predicate Negative(w: nat, v: nat)
    requires w >= 1
  {
    v >= Pow2(w - 1)
  }

  lemma {:induction false} SumMod(x: int, m: int)
    requires 0 <= x < 2 * m
    ensures x % m == if x >= m then x - m else x
  {
    if x >= m { DivModUnique(x, 1, x - m, m); } else { ModSmall(x, m); }
  }

  lemma {:induction false} DifferenceMod(x: int, m: int)
    requires 0 - m <= x < m
    ensures x % m == if x < 0 then x + m else x
  {
    if x < 0 { DivModUnique(x, -1, x + m, m); } else { ModSmall(x, m); }
  }

  lemma {:induction false} ModModFactor(x: int, d: nat, p: nat)
    requires d > 0 && p > 0
    ensures d * p > 0 && x % (d * p) % p == x % p
  {
    MulAtLeast(d, p);
    var k, r := x / (d * p), x % (d * p);
    assert x == k * (d * p) + r;
    MulAssoc(k, d, p);
    ModEqual(x, r, k * d, p);
  }

  lemma {:induction false} ModMod(x: int, w: nat, machine: nat)
    requires w <= machine
    ensures x % Pow2(machine) % Pow2(w) == x % Pow2(w)
  {
    Pow2Add(machine - w, w);
    ModModFactor(x, Pow2(machine - w), Pow2(w));
  }

  /** Reducing to the machine's word first makes no difference. */
  lemma {:induction false} LowTwice(x: int, w: nat, machine: nat)
    requires w <= machine
    ensures LowPart(LowPart(x, machine), w) == LowPart(x, w)
  {
    hide LowPart, Pow2;
    LowPartIs(x, machine);
    LowPartIs(LowPart(x, machine), w);
    LowPartIs(x, w);
    ModMod(x, w, machine);
  }

  // ----- carry and overflow -----

  /** The result r is below the first operand (or not above it, with a carry in)
      exactly when the unsigned sum x does not fit. */
  lemma {:induction false} AddCarry(w: nat, a: nat, b: nat, c: nat, x: int, r: nat)
    requires a < Pow2(w) && b < Pow2(w) && c <= 1 && x == a + b + c && r == x % Pow2(w)
    ensures (if c == 1 then r <= a else r < a) <==> !InUnsigned(w, x)
  {
    SumMod(x, Pow2(w));
  }

  /** Equal signs in, another sign out: exactly when the signed sum s does not fit. */
  lemma {:induction false} AddOverflow(w: nat, a: nat, b: nat, c: nat, r: nat, s: int)
    requires w >= 1 && a < Pow2(w) && b < Pow2(w) && c <= 1
    requires r == (a + b + c) % Pow2(w) && s == Signed(w, a) + Signed(w, b) + c
    ensures Negative(w, a) == Negative(w, b) && Negative(w, a) != Negative(w, r) <==> !InSigned(w, s)
  {
    SumMod(a + b + c, Pow2(w));
  }

  /** Two formulas for the signed difference d not to fit. */
  lemma {:induction false} SubOverflow(w: nat, a: nat, b: nat, c: nat, r: nat, d: int)
    requires w >= 1 && a < Pow2(w) && b < Pow2(w) && c <= 1
    requires r == (a - b - c) % Pow2(w) && d == Signed(w, a) - Signed(w, b) - c
    ensures Negative(w, a) != Negative(w, b) && Negative(w, a) != Negative(w, r) <==> !InSigned(w, d)
    ensures Negative(w, r) != (if c == 1 then Signed(w, a) <= Signed(w, b) else Signed(w, a) < Signed(w, b))
      <==> !InSigned(w, d)
  {
    DifferenceMod(a - b - c, Pow2(w));
  }

  // ----- bits -----

  lemma {:induction false} SignIsTopBit(w: nat, v: nat)
    requires w >= 1 && v < Pow2(w)
    ensures Bit(v, w - 1) == ShiftedRight(v, w - 1) == Truth(Negative(w, v))
  {
    TopBit(v, w - 1);
    ShiftedRightIs(v, w - 1);
  }

  lemma {:induction false} AndOne(y: nat)
    ensures And(1, y) == y % 2
  {
    AndUnfolds(1, y);
    assert And(0, y / 2) == 0;
  }

  lemma {:induction false} AndEven(h: nat, x: nat)
    ensures And(2 * h, x) == 2 * And(h, x / 2)
  {
    AndUnfolds(2 * h, x);
  }

  lemma {:induction false} FourHalves(x: nat)
    ensures x / 2 / 2 / 2 / 2 == x / 16
  {
  }

  lemma {:induction false} AndSixteen(x: nat)
    ensures And(0x10, x) == 0x10 * Bit(x, 4)
  {
    AndEven(8, x);
    AndEven(4, x / 2);
    AndEven(2, x / 2 / 2);
    AndEven(1, x / 2 / 2 / 2);
    AndOne(x / 2 / 2 / 2 / 2);
    FourHalves(x);
    BitFour(x);
  }

  lemma {:induction false} BitFour(x: nat)
    ensures Bit(x, 4) == x / 16 % 2
  {
    BitIs(x, 4);
    SmallPowers();
  }

  lemma {:induction false} CarryParity(p: int, q: int, k: int)
    requires -1 <= k <= 1
    ensures (p + q + k) % 2 == (if p % 2 == q % 2 then 0 else 1) <==> k == 0
  {
  }

  lemma {:induction false} Nibbles(p: int, q: int, n: int)
    requires -16 <= n < 32
    ensures ((p + q) * 16 + n) / 16 == p + q + (if n < 0 then -1 else if n >= 16 then 1 else 0)
    ensures ((p - q) * 16 + n) / 16 == p - q + (if n < 0 then -1 else if n >= 16 then 1 else 0)
  {
  }

  lemma {:induction false} LowBitsOfSum(x: int, w: nat)
    requires w >= 5
    ensures x % Pow2(w) / 16 % 2 == x / 16 % 2
  {
    Pow2Add(w - 5, 5);
    SmallPowers();
    LowFive(x, Pow2(w - 5));
  }

  lemma {:induction false} LowFive(x: int, d: nat)
    requires d > 0
    ensures x % (d * 32) / 16 % 2 == x / 16 % 2
  {
    var k, r := x / (d * 32), x % (d * 32);
    assert x == k * (d * 32) + r;
    MulAssoc(k, d, 32);
    var e := k * d;
    DivModUnique(x, 2 * e + r / 16, r % 16, 16);
    ModEqual(x / 16, r / 16, e, 2);
  }

  lemma {:induction false} XorThreeBit(r: nat, a: nat, b: nat)
    ensures Bit(Xor(r, Xor(a, b)), 4) == 1 <==> (r / 16 % 2 != (if a / 16 % 2 == b / 16 % 2 then 0 else 1))
  {
    XorBit(r, Xor(a, b), 4);
    XorBit(a, b, 4);
    BitFour(r);
    BitFour(a);
    BitFour(b);
  }

  lemma {:induction false} NegatedParity(q: nat)
    ensures (0 - q) % 2 == q % 2
  {
  }

  /** Bit 4 of result ^ arg1 ^ arg2 is the carry out of the low four bits. */
  lemma {:induction false} AuxiliaryBit(w: nat, a: nat, b: nat, x: int, n: int, r: nat)
    requires w >= 5 && -16 <= n < 32 && r == x % Pow2(w)
    requires x == (a / 16 + b / 16) * 16 + n || x == (a / 16 - b / 16) * 16 + n
    ensures Bit(Xor(r, Xor(a, b)), 4) == Truth(!(0 <= n < 16))
  {
    LowBitsOfSum(x, w);
    XorThreeBit(r, a, b);
    Nibbles(a / 16, b / 16, n);
    var k := if n < 0 then -1 else if n >= 16 then 1 else 0;
    CarryParity(a / 16, b / 16, k);
    CarryParity(a / 16, 0 - b / 16, k);
    NegatedParity(b / 16);
  }

  lemma {:induction false} AuxiliaryCarry(w: nat, a: nat, b: nat, c: nat, r: nat, n: int)
    requires w >= 5 && c <= 1 && r == (a + b + c) % Pow2(w) && n == a % 16 + b % 16 + c
    ensures Bit(Xor(r, Xor(a, b)), 4) == Truth(!(0 <= n < 16))
  {
    AuxiliaryBit(w, a, b, a + b + c, n, r);
  }

  lemma {:induction false} AuxiliaryBorrow(w: nat, a: nat, b: nat, c: nat, r: nat, n: int)
    requires w >= 5 && c <= 1 && r == (a - b - c) % Pow2(w) && n == a % 16 - b % 16 - c
    ensures Bit(Xor(r, Xor(a, b)), 4) == Truth(!(0 <= n < 16))
  {
    AuxiliaryBit(w, a, b, a - b - c, n, r);
  }

  // ----- parity -----

  predicate EvenParity(res: nat) { Ones(res % 0x100) % 2 == 0 }

  /** Eight words folded with exclusive or, in the order of parity8. */
  function Fold8(b7: nat, b6: nat, b5: nat, b4: nat, b3: nat, b2: nat, b1: nat, b0: nat): nat {
    Xor(Xor(Xor(b7, b6), Xor(b5, b4)), Xor(Xor(b3, b2), Xor(b1, b0)))
  }

  /** The shifts of x folded. */
  function Folded(x: nat): nat {
    Fold8(ShiftedRight(x, 7), ShiftedRight(x, 6), ShiftedRight(x, 5), ShiftedRight(x, 4),
          ShiftedRight(x, 3), ShiftedRight(x, 2), ShiftedRight(x, 1), x)
  }

  lemma {:induction false} XorParity(x: nat, y: nat)
    ensures Xor(x, y) % 2 == (x % 2 + y % 2) % 2
  {
    HalfXor(x, y);
    SumMod2(x, y);
  }

  lemma {:induction false} SumMod2(x: nat, y: nat)
    ensures (x + y) % 2 == (x % 2 + y % 2) % 2
  {
  }

  lemma {:induction false} FourParity(a: nat, b: nat, c: nat, d: nat)
    ensures Xor(Xor(a, b), Xor(c, d)) % 2 == (a % 2 + b % 2 + (c % 2 + d % 2)) % 2
  {
    hide Xor;
    XorParity(a, b);
    XorParity(c, d);
    XorParity(Xor(a, b), Xor(c, d));
    ModAdd(a % 2 + b % 2, c % 2 + d % 2, 2);
  }

  lemma {:induction false} Fold8Parity(b7: nat, b6: nat, b5: nat, b4: nat, b3: nat, b2: nat, b1: nat, b0: nat)
    ensures Fold8(b7, b6, b5, b4, b3, b2, b1, b0) % 2
         == (b7 % 2 + b6 % 2 + (b5 % 2 + b4 % 2) + (b3 % 2 + b2 % 2 + (b1 % 2 + b0 % 2))) % 2
  {
    hide Xor;
    FourParity(b7, b6, b5, b4);
    FourParity(b3, b2, b1, b0);
    XorParity(Xor(Xor(b7, b6), Xor(b5, b4)), Xor(Xor(b3, b2), Xor(b1, b0)));
    ModAdd(b7 % 2 + b6 % 2 + (b5 % 2 + b4 % 2), b3 % 2 + b2 % 2 + (b1 % 2 + b0 % 2), 2);
  }

  function BitSum(x: nat, n: nat): nat {
    if n == 0 then 0 else BitSum(x, n - 1) + Bit(x, n - 1)
  }

  lemma {:induction false} BitSumUp(x: nat, n: nat)
    ensures BitSum(x, n + 1) == x % 2 + BitSum(x / 2, n)
  {
    if n == 0 {
      BitZero(x);
    } else {
      BitSumUp(x, n - 1);
      BitUp(x, n - 1);
    }
  }

  lemma {:induction false} OnesBits(x: nat, n: nat)
    requires x < Pow2(n)
    ensures Ones(x) == BitSum(x, n)
  {
    if n == 0 {
    } else {
      OnesBits(x / 2, n - 1);
      BitSumUp(x, n - 1);
    }
  }

  lemma {:induction false} BitSumStep(x: nat, n: nat)
    ensures BitSum(x, n + 1) == BitSum(x, n) + ShiftedRight(x, n) % 2
  {
    ShiftedBit(x, n);
  }

  lemma {:induction false} BitSum8(x: nat)
    ensures BitSum(x, 8) ==
      ShiftedRight(x, 7) % 2 + ShiftedRight(x, 6) % 2 + (ShiftedRight(x, 5) % 2 + ShiftedRight(x, 4) % 2)
      + (ShiftedRight(x, 3) % 2 + ShiftedRight(x, 2) % 2 + (ShiftedRight(x, 1) % 2 + x % 2))
  {
    assert BitSum(x, 0) == 0;
    assert ShiftedRight(x, 0) == x by { assert Pow2(0) == 1; }
    BitSumStep(x, 0);
    BitSumStep(x, 1);
    BitSumStep(x, 2);
    BitSumStep(x, 3);
    BitSumStep(x, 4);
    BitSumStep(x, 5);
    BitSumStep(x, 6);
    BitSumStep(x, 7);
  }

  lemma {:induction false} BitSumLow(x: nat, n: nat, w: nat)
    requires n <= w
    ensures BitSum(x % Pow2(w), n) == BitSum(x, n)
  {
    if n > 0 {
      BitSumLow(x, n - 1, w);
      LowBits(x, w, n - 1);
    }
  }

  /** The fold's low bit is the parity of the low byte. */
  lemma {:induction false} FoldedParity(x: nat)
    ensures Folded(x) % 2 == Ones(x % 0x100) % 2
  {
    hide Ones, Xor, ShiftedRight, BitSum, Pow2, Fold8;
    Fold8Parity(ShiftedRight(x, 7), ShiftedRight(x, 6), ShiftedRight(x, 5), ShiftedRight(x, 4),
                ShiftedRight(x, 3), ShiftedRight(x, 2), ShiftedRight(x, 1), x);
    BitSum8(x);
    SmallPowers();
    BitSumLow(x, 8, 8);
    OnesBits(x % 0x100, 8);
  }
}
