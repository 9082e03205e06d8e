/** Rotation through carry in libasmir/src/vex/irtoir-i386.cpp (x86g_calculate_RCL and
    x86g_calculate_RCR): the emitted code rotates carry and operand together, as one
    number of w + 1 bits. */
module Rotate {
  import opened Arith
  import opened Powers
  import opened Bits
  import opened FlagExprs
  import opened FlagMath
  import opened FlagFormulas

  // ----- rotation of m-bit numbers -----

  function Quotient(x: nat, q: nat): nat
    requires q > 0
  {
    x / q
  }

  function RotL(v: nat, n: nat, m: nat): nat
    requires n <= m
  {
    v % Pow2(m - n) * Pow2(n) + Quotient(v, Pow2(m - n))
  }

  function RotR(v: nat, n: nat, m: nat): nat
    requires n <= m
  {
    RotL(v, m - n, m)
  }

  lemma {:induction false} JoinParts(h: nat, l: nat, p: nat)
    requires l < Pow2(p)
    ensures (h * Pow2(p) + l) / Pow2(p) == h && (h * Pow2(p) + l) % Pow2(p) == l
  {
    hide Pow2;
    DivModUnique(h * Pow2(p) + l, h, l, Pow2(p));
  }

  lemma {:induction false} QuotientBelow(v: nat, t: nat, q: nat)
    requires q > 0 && v < t * q
    ensures v / q < t
  {
    if v / q >= t {
      MulMono(t, v / q, q);
    }
  }

  lemma {:induction false} SplitParts(v: nat, p: nat, m: nat)
    requires p <= m && v < Pow2(m)
    ensures v == Quotient(v, Pow2(p)) * Pow2(p) + v % Pow2(p) && Quotient(v, Pow2(p)) < Pow2(m - p)
  {
    hide Pow2;
    Pow2Add(m - p, p);
    QuotientBelow(v, Pow2(m - p), Pow2(p));
  }

  lemma {:induction false} BitOfJoin(h: nat, l: nat, p: nat, k: nat)
    requires l < Pow2(p)
    ensures Bit(h * Pow2(p) + l, k) == if k < p then Bit(l, k) else Bit(h, k - p)
  {
    hide Bit, Pow2;
    var x := h * Pow2(p) + l;
    JoinParts(h, l, p);
    if k < p {
      LowBits(x, p, k);
    } else {
      BitIs(x, k);
      BitIs(h, k - p);
      Pow2Add(p, k - p);
      DivDiv(x, Pow2(p), Pow2(k - p));
    }
  }

  lemma {:induction false} RotLMovesBit(v: nat, n: nat, m: nat, k: nat)
    requires n < m && v < Pow2(m) && k < m
    ensures Bit(RotL(v, n, m), if k + n < m then k + n else k + n - m) == Bit(v, k)
  {
    hide Pow2, Bit;
    var p := m - n;
    var h, l := Quotient(v, Pow2(p)), v % Pow2(p);
    SplitParts(v, p, m);
    assert v == h * Pow2(p) + l && RotL(v, n, m) == l * Pow2(n) + h;
    BitOfJoin(h, l, p, k);
    if k < p {
      BitOfJoin(l, h, n, k + n);
    } else {
      BitOfJoin(l, h, n, k - p);
    }
  }

  /** Rotating left by n moves bit k to bit k + n mod m. */
  lemma {:induction false} RotLMovesBits(v: nat, n: nat, m: nat, k: nat)
    requires n < m && v < Pow2(m) && k < m
    ensures Bit(RotL(v, n, m), (k + n) % m) == Bit(v, k)
  {
    hide Pow2, Bit;
    SumMod(k + n, m);
    RotLMovesBit(v, n, m, k);
  }

  /** Rotating right undoes rotating left. */
  lemma {:induction false} RotRUndoesRotL(v: nat, n: nat, m: nat)
    requires n <= m && v < Pow2(m)
    ensures RotL(v, n, m) < Pow2(m) && RotR(RotL(v, n, m), n, m) == v
  {
    hide Pow2;
    var p := m - n;
    var h, l := Quotient(v, Pow2(p)), v % Pow2(p);
    SplitParts(v, p, m);
    JoinParts(l, h, n);
    Pow2Add(p, n);
    MulMono(l, Pow2(p) - 1, Pow2(n));
    MulDistribute(Pow2(p), 1, Pow2(n));
  }

  // ----- windows of shifted numbers -----

  lemma {:induction false} ShiftMod(x: nat, p: nat, w: nat)
    requires p <= w
    ensures x * Pow2(p) % Pow2(w) == x % Pow2(w - p) * Pow2(p)
  {
    hide Pow2;
    Pow2Add(w - p, p);
    DivModScale(x, Pow2(w - p), Pow2(p));
  }

  lemma {:induction false} ShiftedSmall(y: nat, d: nat, s: nat, p: nat)
    requires y < Pow2(d) && s < Pow2(p)
    ensures y * Pow2(p) + s < Pow2(d + p)
  {
    hide Pow2;
    Pow2Add(d, p);
    MulMono(y, Pow2(d) - 1, Pow2(p));
    MulDistribute(Pow2(d), 1, Pow2(p));
  }

  lemma {:induction false} Regroup(y: nat, d: nat, p: nat, s: nat)
    requires s < Pow2(p)
    ensures (y * Pow2(p) + s) / Pow2(d + p) == y / Pow2(d)
    ensures (y * Pow2(p) + s) % Pow2(d + p) == y % Pow2(d) * Pow2(p) + s
  {
    hide Pow2;
    Pow2Add(d, p);
    ShiftedSmall(y % Pow2(d), d, s, p);
    RegroupFactors(y, Pow2(d), Pow2(p), s);
  }

  lemma {:induction false} RegroupFactors(y: nat, d: nat, p: nat, s: nat)
    requires d > 0 && p > 0 && y % d * p + s < d * p
    ensures (y * p + s) / (d * p) == y / d && (y * p + s) % (d * p) == y % d * p + s
  {
    var h, l := y / d, y % d;
    assert y == h * d + l;
    MulDistribute(h * d, l, p);
    MulAssoc(h, d, p);
    MulMono(0, l, p);
    DivModUnique(y * p + s, h, l * p + s, d * p);
  }

  /** The low w bits, and what is above them, of a number shifted left by p. */
  lemma {:induction false} Window(x: nat, j: nat, p: nat, w: nat, s: nat)
    requires p <= w <= j + p && s < Pow2(p)
    ensures (x % Pow2(j) * Pow2(p) + s) % Pow2(w) == x % Pow2(w - p) * Pow2(p) + s
    ensures j + p == w + 1 ==> (x % Pow2(j) * Pow2(p) + s) / Pow2(w) == Bit(x, w - p)
  {
    hide Pow2, Bit;
    var d := w - p;
    Regroup(x % Pow2(j), d, p, s);
    ModMod(x, d, j);
    if j + p == w + 1 {
      TopBit(x % Pow2(j), d);
      LowBits(x, d + 1, d);
    }
  }

  lemma {:induction false} OrCommutes(x: nat, y: nat)
    ensures Or(x, y) == Or(y, x)
    decreases x + y
  {
    if x + y > 0 { OrCommutes(x / 2, y / 2); }
  }

  // ----- what the expressions compute -----

  /** The answer of RCL by n > 0, in 32 bits. */
  function LeftAnswer(w: nat, a: nat, c: nat, n: nat): nat
    requires 1 <= n <= w <= 32
  {
    Or(Apply(LSHIFT, 32, a, n), Or(Apply(LSHIFT, 32, c, n - 1), Apply(RSHIFT, 32, a, w + 1 - n)))
  }

  function RightAnswer(w: nat, a: nat, c: nat, n: nat): nat
    requires 1 <= n <= w <= 32
  {
    Or(Apply(RSHIFT, 32, a, n), Or(Apply(LSHIFT, 32, c, w - n), Apply(LSHIFT, 32, a, w + 1 - n)))
  }

  /** The carry above the operand. */
  function Joined(w: nat, a: nat, c: nat): nat { c * Pow2(w) + a }

  lemma {:induction false} CarryShift(c: nat, k: nat)
    requires c <= 1 && k < 32
    ensures Apply(LSHIFT, 32, c, k) == c * Pow2(k)
  {
    hide LowPart, ShiftedLeft, Pow2;
    Pow2StrictMono(k, 32);
    ShiftedLeftIs(c, k);
    LowPartSmall(c * Pow2(k), 32);
  }

  lemma {:induction false} TooFarRight(a: nat, k: nat)
    requires a < Pow2(32) && k <= 32
    ensures Apply(RSHIFT, 32, a, k) == Quotient(a, Pow2(k))
  {
    hide ShiftedRight, Pow2;
    ShiftedRightIs(a, k);
    if k == 32 { ModSmall(a, Pow2(32)); }
  }

  lemma {:induction false} LeftShift32(a: nat, k: nat)
    requires k <= 32
    ensures Apply(LSHIFT, 32, a, k) == a % Pow2(32 - k) * Pow2(k)
  {
    hide LowPart, ShiftedLeft, Pow2;
    SmallPowers();
    ShiftedLeftIs(a, k);
    LowPartIs(a * Pow2(k), 32);
    ShiftMod(a, k, 32);
  }

  lemma {:induction false} CutFactors(a: nat, c: nat, t: nat, q: nat)
    requires q > 0
    ensures (c * (t * q) + a) % q == a % q && (c * (t * q) + a) / q == c * t + a / q
  {
    MulAssoc(c, t, q);
    MulDistribute(c * t, a / q, q);
    DivModUnique(c * (t * q) + a, c * t + a / q, a % q, q);
  }

  /** The parts of carry:operand on either side of a cut at or below w. */
  lemma {:induction false} JoinedParts(w: nat, a: nat, c: nat, p: nat)
    requires p <= w
    ensures Joined(w, a, c) % Pow2(p) == a % Pow2(p)
    ensures Quotient(Joined(w, a, c), Pow2(p)) == c * Pow2(w - p) + Quotient(a, Pow2(p))
  {
    hide Pow2;
    Pow2Add(w - p, p);
    CutFactors(a, c, Pow2(w - p), Pow2(p));
  }

  lemma {:induction false} QuotientFits(a: nat, p: nat, w: nat)
    requires p <= w && a < Pow2(w)
    ensures Quotient(a, Pow2(p)) < Pow2(w - p)
  {
    hide Pow2;
    SplitParts(a, p, w);
  }

  // ----- rotating left -----

  lemma {:induction false} LeftAnswerIs(w: nat, a: nat, c: nat, n: nat)
    requires 1 <= n <= w <= 32 && n < 32 && a < Pow2(w) && c <= 1
    ensures var s := c * Pow2(n - 1) + Quotient(a, Pow2(w + 1 - n));
      s < Pow2(n) && LeftAnswer(w, a, c, n) == a % Pow2(32 - n) * Pow2(n) + s
  {
    hide Pow2, Or, Apply, Quotient;
    var low := Quotient(a, Pow2(w + 1 - n));
    Pow2Mono(w, 32);
    CarryShift(c, n - 1);
    TooFarRight(a, w + 1 - n);
    LeftShift32(a, n);
    LowBelow(a, w, n);
    OrDisjoint(c, low, n - 1);
    assert c < Pow2(1) by { SmallPowers(); }
    ShiftedSmall(c, 1, low, n - 1);
    OrDisjoint(a % Pow2(32 - n), c * Pow2(n - 1) + low, n);
  }

  lemma {:induction false} LowBelow(a: nat, w: nat, n: nat)
    requires 1 <= n <= w && a < Pow2(w)
    ensures Quotient(a, Pow2(w + 1 - n)) < Pow2(n - 1)
  {
    hide Pow2;
    QuotientFits(a, w + 1 - n, w);
  }

  lemma {:induction false} Rejoin(w: nat, v: nat, x: nat, bit: nat)
    requires v / Pow2(w) == bit && v % Pow2(w) == x % Pow2(w)
    ensures Joined(w, x % Pow2(w), bit) == v
  {
  }

  lemma {:induction false} RotLParts(w: nat, a: nat, c: nat, n: nat)
    requires 1 <= n <= w
    ensures RotL(Joined(w, a, c), n, w + 1)
         == a % Pow2(w + 1 - n) * Pow2(n) + (c * Pow2(n - 1) + Quotient(a, Pow2(w + 1 - n)))
  {
    hide Pow2;
    JoinedParts(w, a, c, w + 1 - n);
  }

  lemma {:induction false} RotRParts(w: nat, a: nat, c: nat, n: nat)
    requires 1 <= n <= w
    ensures RotR(Joined(w, a, c), n, w + 1)
         == a % Pow2(n) * Pow2(w + 1 - n) + (c * Pow2(w - n) + Quotient(a, Pow2(n)))
  {
    hide Pow2;
    JoinedParts(w, a, c, n);
  }

  /** The emitted answer and carry of RCL are the rotation of carry:operand. */
  lemma {:induction false} RotateLeftCorrect(w: nat, a: nat, c: nat, n: nat)
    requires 1 <= n <= w <= 32 && n < 32 && a < Pow2(w) && c <= 1
    ensures Joined(w, a, c) < Pow2(w + 1)
    ensures Joined(w, LeftAnswer(w, a, c, n) % Pow2(w), Bit(a, w - n)) == RotL(Joined(w, a, c), n, w + 1)
  {
    hide Pow2, Bit, LeftAnswer, RightAnswer, RotL, RotR, Quotient, Joined;
    var s := c * Pow2(n - 1) + Quotient(a, Pow2(w + 1 - n));
    LeftAnswerIs(w, a, c, n);
    RotLParts(w, a, c, n);
    TwoWindows(a, w + 1 - n, 32 - n, n, w, s, RotL(Joined(w, a, c), n, w + 1), LeftAnswer(w, a, c, n));
    JoinedFits(w, a, c);
  }

  /** A window of w + 1 bits and a wider one with the same low end. */
  lemma {:induction false} TwoWindows(a: nat, j: nat, i: nat, p: nat, w: nat, s: nat, v: nat, x: nat)
    requires p <= w && j + p == w + 1 && i + p >= w && s < Pow2(p)
    requires v == a % Pow2(j) * Pow2(p) + s && x == a % Pow2(i) * Pow2(p) + s
    ensures Joined(w, x % Pow2(w), Bit(a, w - p)) == v
  {
    hide Pow2, Bit, Joined;
    Window(a, j, p, w, s);
    Window(a, i, p, w, s);
    Rejoin(w, v, x, Bit(a, w - p));
  }

  lemma {:induction false} JoinedFits(w: nat, a: nat, c: nat)
    requires a < Pow2(w) && c <= 1
    ensures Joined(w, a, c) < Pow2(w + 1)
  {
    MulMono(c, 1, Pow2(w));
  }

  // ----- rotating right -----

  lemma {:induction false} RightAnswerIs(w: nat, a: nat, c: nat, n: nat)
    requires 1 <= n <= w <= 32 && n < 32 && a < Pow2(w) && c <= 1
    ensures var s := c * Pow2(w - n) + Quotient(a, Pow2(n));
      s < Pow2(w + 1 - n) && RightAnswer(w, a, c, n) == a % Pow2(31 - w + n) * Pow2(w + 1 - n) + s
  {
    hide Pow2, Or, Apply, Quotient;
    var low, high := Quotient(a, Pow2(n)), a % Pow2(31 - w + n);
    Pow2Mono(w, 32);
    CarryShift(c, w - n);
    TooFarRight(a, n);
    LeftShift32(a, w + 1 - n);
    QuotientFits(a, n, w);
    SmallPowers();
    var k := w - n;
    ShiftedSmall(c, 1, 0, k);
    OrCommutes(c * Pow2(k), high * Pow2(k + 1));
    OrDisjoint(high, c * Pow2(k), k + 1);
    TwoParts(high, c, k);
    OrCommutes(low, (2 * high + c) * Pow2(k));
    OrDisjoint(2 * high + c, low, k);
    ShiftedSmall(c, 1, low, k);
  }

  lemma {:induction false} TwoParts(high: nat, c: nat, k: nat)
    ensures high * Pow2(k + 1) + c * Pow2(k) == (2 * high + c) * Pow2(k)
  {
    MulAssoc(high, 2, Pow2(k));
    Commute(2, high);
    MulDistribute(2 * high, c, Pow2(k));
  }

  lemma {:induction false} RotateRightCorrect(w: nat, a: nat, c: nat, n: nat)
    requires 1 <= n <= w <= 32 && n < 32 && a < Pow2(w) && c <= 1
    ensures Joined(w, a, c) < Pow2(w + 1)
    ensures Joined(w, RightAnswer(w, a, c, n) % Pow2(w), Bit(a, n - 1)) == RotR(Joined(w, a, c), n, w + 1)
  {
    hide Pow2, Bit, LeftAnswer, RightAnswer, RotL, RotR, Quotient, Joined;
    var s := c * Pow2(w - n) + Quotient(a, Pow2(n));
    RightAnswerIs(w, a, c, n);
    RotRParts(w, a, c, n);
    TwoWindows(a, n, 31 - w + n, w + 1 - n, w, s, RotR(Joined(w, a, c), n, w + 1), RightAnswer(w, a, c, n));
    JoinedFits(w, a, c);
  }
}
