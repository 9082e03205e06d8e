/** Bitwise operations on natural numbers, bit by bit, and their arithmetic. */
module Bits {
  import opened Arith
  import opened Powers

  function Bit(x: nat, k: nat): (b: nat)
    ensures b <= 1
    decreases k, x
  {
    if k == 0 then x % 2 else
      var h, m := x / 2, k - 1;
      Bit(h, m)
  }

  /** The low k bits of a number in two's complement, and what is above them. */
  function LowPart(x: int, k: nat): nat
    decreases k, x
  {
    if k == 0 then 0 else
      var h, m := x / 2, k - 1;
      2 * LowPart(h, m) + x % 2
  }

  function ShiftedRight(x: nat, k: nat): nat
    decreases k, x
  {
    if k == 0 then x else
      var h, m := x / 2, k - 1;
      ShiftedRight(h, m)
  }

  function ShiftedLeft(x: nat, k: nat): nat
    decreases k, x
  {
    if k == 0 then x else
      var d, m := 2 * x, k - 1;
      ShiftedLeft(d, m)
  }

  function Modulo(x: nat, y: nat): nat
    decreases x, y
  {
    if y == 0 then 0 else if x < y then x else
      var d := x - y;
      Modulo(d, y)
  }

  lemma {:induction false} ShiftedLeftIs(x: nat, k: nat)
    ensures ShiftedLeft(x, k) == x * Pow2(k)
    decreases k
  {
    if k > 0 {
      ShiftedLeftIs(2 * x, k - 1);
      MulAssoc(x, 2, Pow2(k - 1));
    }
  }

  lemma {:induction false} ModuloIs(x: nat, y: nat)
    requires y > 0
    ensures Modulo(x, y) == x % y
    decreases x
  {
    if x < y {
      ModSmall(x, y);
    } else {
      ModuloIs(x - y, y);
      ModEqual(x, x - y, 1, y);
    }
  }

  lemma {:induction false} LowPartFits(x: int, k: nat)
    ensures LowPart(x, k) < Pow2(k)
  {
    LowPartIs(x, k);
  }

  lemma {:induction false} LowPartSmall(x: nat, k: nat)
    requires x < Pow2(k)
    ensures LowPart(x, k) == x
  {
    LowPartIs(x, k);
    ModSmall(x, Pow2(k));
  }

  lemma {:induction false} BitIs(x: nat, k: nat)
    ensures Bit(x, k) == x / Pow2(k) % 2
  {
    if k > 0 {
      BitIs(x / 2, k - 1);
      DivDiv(x, 2, Pow2(k - 1));
    }
  }

  lemma {:induction false} LowPartIs(x: int, k: nat)
    ensures LowPart(x, k) == x % Pow2(k)
    decreases k
  {
    if k > 0 {
      LowPartIs(x / 2, k - 1);
      LowUnfolds(x, k);
      DoubleModulus(x, Pow2(k - 1));
    }
  }

  lemma LowUnfolds(x: int, k: nat)
    requires k > 0
    ensures LowPart(x, k) == 2 * LowPart(x / 2, k - 1) + x % 2
  {
  }

  lemma {:induction false} DoubleModulus(x: int, q: nat)
    requires q > 0
    ensures x % (2 * q) == 2 * (x / 2 % q) + x % 2
  {
    var t := x / 2;
    assert x == 2 * t + x % 2 && t == t / q * q + t % q;
    MulAssoc(t / q, 2, q);
    DivModUnique(x, t / q, 2 * (t % q) + x % 2, 2 * q);
  }

  lemma {:induction false} ShiftedRightIs(x: nat, k: nat)
    ensures ShiftedRight(x, k) == x / Pow2(k)
  {
    if k > 0 {
      ShiftedRightIs(x / 2, k - 1);
      DivDiv(x, 2, Pow2(k - 1));
    }
  }

  lemma {:induction false} ShiftedBit(x: nat, k: nat)
    ensures ShiftedRight(x, k) % 2 == Bit(x, k)
  {
    if k > 0 { ShiftedBit(x / 2, k - 1); }
  }

  function Xor(x: nat, y: nat): nat
    decreases x + y
  {
    if x == 0 && y == 0 then 0 else
      var h, k := x / 2, y / 2;
      2 * Xor(h, k) + (x + y) % 2
  }

  function And(x: nat, y: nat): nat
    decreases x, y
  {
    if x == 0 then 0 else
      var h, k := x / 2, y / 2;
      2 * And(h, k) + (if x % 2 == 1 && y % 2 == 1 then 1 else 0)
  }

  function Or(x: nat, y: nat): nat
    decreases x + y
  {
    if x == 0 && y == 0 then 0 else
      var h, k := x / 2, y / 2;
      2 * Or(h, k) + (if x % 2 == 1 || y % 2 == 1 then 1 else 0)
  }

  function Ones(x: nat): nat {
    if x == 0 then 0 else x % 2 + Ones(x / 2)
  }

  lemma {:induction false} BitZero(x: nat)
    ensures Bit(x, 0) == x % 2
  {
  }

  lemma {:induction false} BitUp(x: nat, k: nat)
    ensures Bit(x, k + 1) == Bit(x / 2, k)
  {
  }

  lemma XorUnfolds(x: nat, y: nat)
    ensures Xor(x, y) == 2 * Xor(x / 2, y / 2) + (x + y) % 2
  {
  }

  lemma AndUnfolds(x: nat, y: nat)
    ensures And(x, y) == 2 * And(x / 2, y / 2) + (if x % 2 == 1 && y % 2 == 1 then 1 else 0)
  {
  }

  lemma OrUnfolds(x: nat, y: nat)
    ensures Or(x, y) == 2 * Or(x / 2, y / 2) + (if x % 2 == 1 || y % 2 == 1 then 1 else 0)
  {
  }

  lemma {:induction false} HalveDouble(h: nat, b: nat)
    requires b <= 1
    ensures (2 * h + b) / 2 == h && (2 * h + b) % 2 == b
  {
  }

  lemma {:induction false} HalfXor(x: nat, y: nat)
    ensures Xor(x, y) / 2 == Xor(x / 2, y / 2) && Xor(x, y) % 2 == (x + y) % 2
  {
    XorUnfolds(x, y);
    HalveDouble(Xor(x / 2, y / 2), (x + y) % 2);
  }

  lemma {:induction false} HalfAnd(x: nat, y: nat)
    ensures And(x, y) / 2 == And(x / 2, y / 2)
    ensures And(x, y) % 2 == if x % 2 == 1 && y % 2 == 1 then 1 else 0
  {
    AndUnfolds(x, y);
    HalveDouble(And(x / 2, y / 2), if x % 2 == 1 && y % 2 == 1 then 1 else 0);
  }

  lemma {:induction false} HalfOr(x: nat, y: nat)
    ensures Or(x, y) / 2 == Or(x / 2, y / 2)
    ensures Or(x, y) % 2 == if x % 2 == 1 || y % 2 == 1 then 1 else 0
  {
    OrUnfolds(x, y);
    HalveDouble(Or(x / 2, y / 2), if x % 2 == 1 || y % 2 == 1 then 1 else 0);
  }

  lemma {:induction false} HalfOps(x: nat, y: nat)
    ensures Xor(x, y) / 2 == Xor(x / 2, y / 2) && Xor(x, y) % 2 == (x + y) % 2
    ensures And(x, y) / 2 == And(x / 2, y / 2)
    ensures And(x, y) % 2 == if x % 2 == 1 && y % 2 == 1 then 1 else 0
    ensures Or(x, y) / 2 == Or(x / 2, y / 2)
    ensures Or(x, y) % 2 == if x % 2 == 1 || y % 2 == 1 then 1 else 0
  {
    HalfXor(x, y);
    HalfAnd(x, y);
    HalfOr(x, y);
  }

  lemma {:induction false} XorBit(x: nat, y: nat, k: nat)
    ensures Bit(Xor(x, y), k) == if Bit(x, k) == Bit(y, k) then 0 else 1
    decreases k
  {
    hide Xor, Bit;
    HalfXor(x, y);
    if k == 0 {
      BitZero(x);
      BitZero(y);
      BitZero(Xor(x, y));
      ParityOfSum(x, y);
    } else {
      BitUp(x, k - 1);
      BitUp(y, k - 1);
      BitUp(Xor(x, y), k - 1);
      XorBit(x / 2, y / 2, k - 1);
    }
  }

  lemma ParityOfSum(x: nat, y: nat)
    ensures (x + y) % 2 == if x % 2 == y % 2 then 0 else 1
  {
  }

  lemma {:induction false} AndBit(x: nat, y: nat, k: nat)
    ensures Bit(And(x, y), k) == if Bit(x, k) == 1 && Bit(y, k) == 1 then 1 else 0
    decreases k
  {
    HalfOps(x, y);
    if k == 0 {
      BitZero(x);
      BitZero(y);
      BitZero(And(x, y));
    } else {
      BitUp(x, k - 1);
      BitUp(y, k - 1);
      BitUp(And(x, y), k - 1);
      AndBit(x / 2, y / 2, k - 1);
    }
  }

  lemma {:induction false} OrBit(x: nat, y: nat, k: nat)
    ensures Bit(Or(x, y), k) == if Bit(x, k) == 1 || Bit(y, k) == 1 then 1 else 0
    decreases k
  {
    HalfOps(x, y);
    if k == 0 {
      BitZero(x);
      BitZero(y);
      BitZero(Or(x, y));
    } else {
      BitUp(x, k - 1);
      BitUp(y, k - 1);
      BitUp(Or(x, y), k - 1);
      OrBit(x / 2, y / 2, k - 1);
    }
  }

  lemma {:induction false} OpsFit(x: nat, y: nat, w: nat)
    requires x < Pow2(w) && y < Pow2(w)
    ensures Xor(x, y) < Pow2(w) && And(x, y) < Pow2(w) && Or(x, y) < Pow2(w)
    decreases w
  {
    HalfOps(x, y);
    if w > 0 {
      OpsFit(x / 2, y / 2, w - 1);
    }
  }

  lemma {:induction false} ParityTwice(x: nat, y: nat)
    ensures ((x + y) % 2 + y) % 2 == x % 2
  {
  }

  lemma {:induction false} FromHalf(x: nat, y: nat)
    requires x / 2 == y / 2 && x % 2 == y % 2
    ensures x == y
  {
  }

  lemma {:induction false} XorTwice(x: nat, y: nat)
    ensures Xor(Xor(x, y), y) == x
    decreases x + y
  {
    var z := Xor(x, y);
    HalfOps(x, y);
    HalfOps(z, y);
    if x + y > 0 {
      XorTwice(x / 2, y / 2);
      ParityTwice(x, y);
      assert z % 2 == (x + y) % 2;
      SumParity(z, x + y, y);
      FromHalf(Xor(z, y), x);
    }
  }

  lemma {:induction false} SumParity(z: nat, t: nat, y: nat)
    requires z % 2 == t % 2
    ensures (z + y) % 2 == (t % 2 + y) % 2
  {
  }

  lemma {:induction false} Masked(x: nat, n: nat)
    ensures And(x, Pow2(n) - 1) == x % Pow2(n)
    decreases n
  {
    if n == 0 {
      AndZero(x);
    } else {
      Masked(x / 2, n - 1);
      MaskStep(x, Pow2(n - 1));
      DoubleModulus(x, Pow2(n - 1));
    }
  }

  lemma {:induction false} MaskStep(x: nat, q: nat)
    requires q > 0
    ensures And(x, 2 * q - 1) == 2 * And(x / 2, q - 1) + x % 2
  {
    hide And;
    var y := 2 * q - 1;
    assert y / 2 == q - 1 && y % 2 == 1;
    HalfAnd(x, y);
  }

  lemma {:induction false} AndZero(x: nat)
    ensures And(x, 0) == 0
  {
    if x != 0 { AndZero(x / 2); }
  }

  /** Or of a multiple of 2^k with a number below 2^k is their sum. */
  lemma {:induction false} OrDisjoint(h: nat, y: nat, k: nat)
    requires y < Pow2(k)
    ensures Or(h * Pow2(k), y) == h * Pow2(k) + y
    decreases k
  {
    if k == 0 {
      OrZero(h);
    } else {
      var x := h * Pow2(k);
      MulAssoc(h, 2, Pow2(k - 1));
      assert x == 2 * (h * Pow2(k - 1));
      HalfOps(x, y);
      OrDisjoint(h, y / 2, k - 1);
    }
  }

  lemma {:induction false} OrZero(x: nat)
    ensures Or(x, 0) == x
  {
    if x != 0 { OrZero(x / 2); }
  }

  /** The bit at the top of a number of k + 1 bits. */
  lemma {:induction false} TopBit(x: nat, k: nat)
    requires x < Pow2(k + 1)
    ensures Bit(x, k) == x / Pow2(k) == if x >= Pow2(k) then 1 else 0
  {
    BitIs(x, k);
    if x >= Pow2(k) {
      DivModUnique(x, 1, x - Pow2(k), Pow2(k));
    } else {
      ModSmall(x, Pow2(k));
    }
  }

  lemma {:induction false} LowQuotient(x: nat, p: nat, d: nat)
    requires p > 0 && d > 0
    ensures 2 * d * p > 0 && x % (2 * d * p) / p % 2 == x / p % 2
  {
    MulAtLeast(2 * d, p);
    var m := 2 * d * p;
    var q, r := x / m, x % m;
    assert x == q * m + r && r == r / p * p + r % p;
    MulAssoc(q, 2 * d, p);
    MulDistribute(q * (2 * d), r / p, p);
    DivModUnique(x, q * (2 * d) + r / p, r % p, p);
    MulAssoc(q, 2, d);
    Commute(q * 2, d);
    ModEqual(x / p, r / p, q * d, 2);
  }

  /** Bits below w do not see a reduction mod 2^w. */
  lemma {:induction false} LowBits(x: nat, w: nat, k: nat)
    requires k < w
    ensures Bit(x % Pow2(w), k) == Bit(x, k)
  {
    var d := w - 1 - k;
    BitIs(x, k);
    BitIs(x % Pow2(w), k);
    Pow2Add(d + 1, k);
    LowQuotient(x, Pow2(k), Pow2(d));
  }

  lemma {:induction false} BitOfOnes(n: nat, k: nat)
    requires k < n
    ensures Bit(Pow2(n) - 1, k) == 1
  {
    hide Bit, Pow2;
    Doubled(n - 1);
    HalveDouble(Pow2(n - 1) - 1, 1);
    if k == 0 {
      BitZero(Pow2(n) - 1);
    } else {
      BitUp(Pow2(n) - 1, k - 1);
      BitOfOnes(n - 1, k - 1);
    }
  }

  /** A number has no bits at or above its length. */
  lemma {:induction false} AboveTop(x: nat, k: nat)
    requires x < Pow2(k)
    ensures Bit(x, k) == 0
  {
    hide Bit, Pow2;
    BitIs(x, k);
    ZeroQuotient(x, Pow2(k));
  }

  lemma {:induction false} ZeroQuotient(c: nat, p: nat)
    requires c < p
    ensures c / p % 2 == 0
  {
  }
}
