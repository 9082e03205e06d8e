/** The arithmetic of do_fprem in extras/x87-emu/fpu_trig.c on significands. For exponent
    differences below 64 it is the exact remainder of section 5.3.1 of IEEE 754-2008
    (fprem1) or of truncating division (fprem); above that it takes one step, which is
    not always right. */
module Fprem {
  import opened Arith
  import opened Powers
  import opened Rounding
  import opened FpuRegs

  /** A significand with its leading bit set. */
  type Normal = s: int | TWO63 <= s < TWO64 witness TWO63

  // ----- FPU_u_div and the quotient -----

  /** The quotient of two significands chopped to 64 bits (FPU_u_div under RC_CHOP),
      and the exponent that goes with it when n is the difference of exponents. */
  datatype Quotient = Quotient(sig: int, e: int)

  function UDiv(s0: Normal, s1: Normal, n: int): Quotient {
    if s0 >= s1 then Quotient(s0 * TWO63 / s1, n) else Quotient(s0 * TWO64 / s1, n - 1)
  }

  lemma UDivNormal(s0: Normal, s1: Normal, n: int)
    ensures TWO63 <= UDiv(s0, s1, n).sig < TWO64 && n - 1 <= UDiv(s0, s1, n).e <= n
  {
    if s0 >= s1 {
      FloorAtLeast(s0 * TWO63, TWO63, s1);
      FloorBelow(s0 * TWO63, TWO64, s1);
    } else {
      FloorAtLeast(s0 * TWO64, TWO63, s1);
      FloorBelow(s0 * TWO64, TWO64, s1);
    }
  }

  /** Chopping the 64-bit quotient to an integer gives the integer quotient of the
      aligned operands. */
  lemma ChoppedQuotient(s0: Normal, s1: Normal, n: nat)
    requires n <= 63
    ensures var d := UDiv(s0, s1, n);
      && d.e <= 63 && (d.e >= 0 || (n == 0 && s0 < s1))
      && (d.e >= 0 ==> d.sig / Pow2(63 - d.e) == s0 * Pow2(n) / s1)
  {
    UDivNormal(s0, s1, n);
    if s0 >= s1 {
      assert Pow2(63) == TWO63 by { Pow2Values(); }
      ShiftQuotient(s0, s1, 63, 63 - n, n);
    } else if n >= 1 {
      assert Pow2(64) == TWO64 by { Pow2Values(); }
      ShiftQuotient(s0, s1, 64, 64 - n, n);
    }
  }

  lemma ShiftQuotient(s0: nat, s1: nat, big: nat, k: nat, n: nat)
    requires s1 > 0 && big == k + n
    ensures s0 * Pow2(big) / s1 / Pow2(k) == s0 * Pow2(n) / s1
  {
    DivDiv(s0 * Pow2(big), s1, Pow2(k));
    Pow2Add(n, k);
    MulAssoc(s0, Pow2(n), Pow2(k));
    DivModScale(s0 * Pow2(n), s1, Pow2(k));
  }

  // ----- rem_kernel -----

  /** The product mod 2^64 from three products of words. */
  lemma LowProduct(a1: nat, a0: nat, q1: nat, q0: nat)
    ensures ((a1 * TWO32 + a0) * (q1 * TWO32 + q0)) % TWO64
         == (a0 * q0 + (a1 * q0 + a0 * q1) * TWO32) % TWO64
  {
    var k := a1 * q1;
    assert (a1 * TWO32 + a0) * (q1 * TWO32 + q0) == a0 * q0 + (a1 * q0 + a0 * q1) * TWO32 + k * TWO64 by {
      MulDistribute(a1 * TWO32, a0, q1 * TWO32 + q0);
      ProductOfWords(a1, q1, q0);
      ProductOfWord(a0, q1, q0);
    }
    ModEqual((a1 * TWO32 + a0) * (q1 * TWO32 + q0), a0 * q0 + (a1 * q0 + a0 * q1) * TWO32, k, TWO64);
  }

  lemma ProductOfWord(a: nat, q1: nat, q0: nat)
    ensures a * (q1 * TWO32 + q0) == a * q1 * TWO32 + a * q0
  {
  }

  lemma ProductOfWords(a: nat, q1: nat, q0: nat)
    ensures a * TWO32 * (q1 * TWO32 + q0) == a * q1 * TWO64 + a * q0 * TWO32
  {
  }

  /** A subtraction from the high word only. */
  lemma HighWordMinus(x: u64, p: nat)
    ensures (x - p * TWO32) % TWO64 == (x / TWO32 - p % TWO32) % TWO32 * TWO32 + x % TWO32
  {
    var h, l := x / TWO32, x % TWO32;
    var k := (h - p % TWO32) / TWO32;
    var m := (h - p % TWO32) % TWO32;
    assert x - p * TWO32 == (k - p / TWO32) * TWO64 + (m * TWO32 + l);
    DivModUnique(x - p * TWO32, k - p / TWO32, m * TWO32 + l, TWO64);
  }

  /** subl and sbbl: a subtraction word by word with a borrow. */
  lemma WordsMinus(x: u64, p: u64)
    ensures var borrow := if x % TWO32 < p % TWO32 then 1 else 0;
      (x - p) % TWO64 ==
        (x / TWO32 - p / TWO32 - borrow) % TWO32 * TWO32 + (x % TWO32 - p % TWO32) % TWO32
  {
    var borrow := if x % TWO32 < p % TWO32 then 1 else 0;
    var l := x % TWO32 - p % TWO32 + borrow * TWO32;
    DivModUnique(x % TWO32 - p % TWO32, 0 - borrow, l, TWO32);
    var h := x / TWO32 - p / TWO32 - borrow;
    var k, m := h / TWO32, h % TWO32;
    assert x - p == k * TWO64 + (m * TWO32 + l);
    DivModUnique(x - p, k, m * TWO32 + l, TWO64);
  }

  function Low64(x: int): u64 { x % TWO64 }

  /** rem_kernel works on the two words of x; only the low words of the last two
      products matter. */
  method RemKernel(st0: u64, y: FpuReg, st1: u64, q: u64, n: nat)
    requires n <= 63
    modifies y`sigl, y`sigh
    ensures y.Val().Sig() == (st0 * Pow2(n) - st1 * q) % TWO64
  {
    var x := Low64(st0 * Pow2(n));
    x := MinusWordProduct(x, st1 % TWO32, q % TWO32);
    x := MinusHighProduct(x, st1 / TWO32, q % TWO32);
    x := MinusHighProduct(x, st1 % TWO32, q / TWO32);
    KernelMod(st0 * Pow2(n), st1 / TWO32, st1 % TWO32, q / TWO32, q % TWO32);
    y.SetSig(x);
  }

  /** mull, subl on the low word, sbbl on the high word. */
  method MinusWordProduct(x: u64, a: u32, b: u32) returns (r: u64)
    ensures r == (x - a * b) % TWO64
  {
    WordProduct(a, b);
    var p: u64 := a * b;
    WordsMinus(x, p);
    var eax, edx := p % TWO32, p / TWO32;
    var lo, hi := x % TWO32, x / TWO32;
    var carry := if lo < eax then 1 else 0;
    r := (hi - edx - carry) % TWO32 * TWO32 + (lo - eax) % TWO32;
  }

  lemma WordProduct(a: u32, b: u32)
    ensures 0 <= a * b < TWO64
  {
    MulMono(a, TWO32 - 1, b);
    MulMono(0, a, b);
  }

  /** mull, subl on the high word. */
  method MinusHighProduct(x: u64, a: u32, b: u32) returns (r: u64)
    ensures r == (x - a * b * TWO32) % TWO64
  {
    WordProduct(a, b);
    HighWordMinus(x, a * b);
    var eax := a * b % TWO32;
    r := (x / TWO32 - eax) % TWO32 * TWO32 + x % TWO32;
  }

  lemma KernelMod(x: nat, a1: nat, a0: nat, q1: nat, q0: nat)
    ensures var x1 := (x % TWO64 - a0 * q0) % TWO64;
      var x2 := (x1 - a1 * q0 * TWO32) % TWO64;
      var x3 := (x2 - a0 * q1 * TWO32) % TWO64;
      x3 == (x - (a1 * TWO32 + a0) * (q1 * TWO32 + q0)) % TWO64
  {
    var p0, p1, p2 := a0 * q0, a1 * q0 * TWO32, a0 * q1 * TWO32;
    ModSubRight(x, p0, TWO64);
    ModSubRight(x - p0, p1, TWO64);
    ModSubRight(x - p0 - p1, p2, TWO64);
    LowProduct(a1, a0, q1, q0);
    MulDistribute(a1 * q0, a0 * q1, TWO32);
    var big := (a1 * TWO32 + a0) * (q1 * TWO32 + q0);
    ModSubRight(big, x, TWO64);
    ModSubRight(p0 + p1 + p2, x, TWO64);
  }

  /** The true remainder is below 2^64, so its low 64 bits are all of it. */
  lemma LowBitsSuffice(x: nat, s1: nat, q: nat)
    requires 0 < s1 <= TWO64 && q == x / s1
    ensures (x - s1 * q) % TWO64 == x % s1
  {
    assert x == q * s1 + x % s1 && s1 * q == q * s1;
    ModSmall(x % s1, TWO64);
  }

  // ----- the reduction -----

  /** A significand t with its exponent relative to the divisor's, the quotient, and
      whether the sign of the dividend has to be flipped. */
  datatype Reduced = Reduced(t: u64, e: int, q: nat, flip: bool)

  function Reduce(s0: Normal, s1: Normal, n: int): Reduced
    requires -1 <= n <= 63
  {
    hide UDiv, Pow2;
    var d := UDiv(s0, s1, n);
    UDivNormal(s0, s1, n);
    if d.e >= 0 then
      var q := d.sig / Pow2(63 - d.e);
      Reduced((s0 * Pow2(n) - s1 * q) % TWO64, 0, q, false)
    else
      Reduced(s0, n, 0, false)
  }

  /** The last part of fprem1: perhaps subtract the divisor once more. */
  function Nearer(s1: Normal, r: Reduced): Reduced {
    var x := if r.e == 0 then (s1 - r.t) % TWO64 else (s1 * 2 % TWO64 - r.t) % TWO64;
    if r.t >= 0x4000_0000_0000_0000 && (x < r.t || (x == r.t && r.q % 2 == 1)) then
      Reduced(x, r.e, r.q + 1, !r.flip)
    else r
  }

  lemma ReduceCorrect(s0: Normal, s1: Normal, n: nat)
    requires n <= 63
    ensures var r, x := Reduce(s0, s1, n), s0 * Pow2(n);
      && r.e == 0 && r.q == x / s1 && r.t == x % s1 && !r.flip
  {
    hide UDiv, Pow2;
    ChoppedQuotient(s0, s1, n);
    if UDiv(s0, s1, n).e < 0 {
      SmallPowers();
      ModSmall(s0, s1);
    } else {
      var x, q := s0 * Pow2(n), s0 * Pow2(n) / s1;
      assert Reduce(s0, s1, n) == Reduced((x - s1 * q) % TWO64, 0, q, false);
      LowBitsSuffice(x, s1, q);
    }
  }

  /** r is x reduced by the multiple of y that is nearest to it, the even multiple
      when two are. */
  ghost predicate IsNearest(x: nat, y: nat, t: nat, q: nat, flip: bool)
    requires y > 0
  {
    && q == RoundMag(RND, false, x, y)
    && t == Dist(x, q * y)
    && (flip <==> q * y > x)
  }

  lemma NearestHalf(x: nat, y: nat, t: nat, q: nat, flip: bool)
    requires y > 0 && IsNearest(x, y, t, q, flip)
    ensures 2 * t <= y
  {
    RoundMagIsRounding(RND, false, x, y);
  }

  lemma NearerCorrect(s1: Normal, r: Reduced, x: nat)
    requires r.e == 0 && r.q == x / s1 && r.t == x % s1 && !r.flip
    ensures var r' := Nearer(s1, r); IsNearest(x, s1, r'.t, r'.q, r'.flip) && r'.e == 0
  {
    ModSmall(s1 - r.t, TWO64);
    assert x == r.q * s1 + r.t;
    MulDistribute(r.q, 1, s1);
  }

  /** Exponent difference -1: the divisor is shifted left by one in 64 bits, which
      loses its leading bit; the result is right exactly when that does not show. */
  lemma NearerAtMinusOne(s0: Normal, s1: Normal)
    ensures var r := Nearer(s1, Reduce(s0, s1, -1));
      r.e == -1 && (IsNearest(s0, 2 * s1, r.t, r.q, r.flip) <==> 2 * s1 - s0 < TWO64)
  {
    var r0 := Reduce(s0, s1, -1);
    assert r0 == Reduced(s0, -1, 0, false);
    ModEqual(s1 * 2, s1 * 2 - TWO64, 1, TWO64);
    ModSmall(s1 * 2 - TWO64, TWO64);
    var x := 2 * s1 - s0;
    if x < TWO64 {
      ModEqual(s1 * 2 - TWO64 - s0, x, -1, TWO64);
      ModSmall(x, TWO64);
      ModSmall(s0, 2 * s1);
    } else {
      ModEqual(s1 * 2 - TWO64 - s0, x - TWO64, 0, TWO64);
      ModSmall(x - TWO64, TWO64);
      ModSmall(s0, 2 * s1);
    }
  }

  // ----- exponent differences of 64 and more -----

  /** One step of a longer reduction, by n powers of two: what rem_kernel leaves when it
      shifts the dividend by the exponent of the quotient, as the code does, and not by n. */
  function Partial(s0: Normal, s1: Normal, n: nat): (t: u64)
    requires 32 <= n <= 63
  {
    UDivNormal(s0, s1, n);
    var d := UDiv(s0, s1, n);
    (s0 * Pow2(d.e) - s1 * (d.sig / Pow2(63 - d.e))) % TWO64
  }

  /** The exponent of the quotient is n - 1 when the dividend's significand is the
      smaller one. */
  predicate ShiftShort(s0: Normal, s1: Normal, n: nat)
    requires 32 <= n <= 63
  {
    s0 < s1 && !LowBitsClear(s0, n)
  }

  predicate LowBitsClear(s: nat, n: nat)
    requires n <= 65
  {
    s % Pow2(65 - n) == 0
  }

  /** t and t - b agree mod 2^64 only if b is a multiple of 2^64. */
  lemma SameMod(t: nat, b: nat)
    requires t < TWO64
    ensures (t - b) % TWO64 == t <==> b % TWO64 == 0
  {
    if b % TWO64 == 0 {
      DivModUnique(t - b, 0 - b / TWO64, t, TWO64);
    } else if (t - b) % TWO64 == t {
      var k := (t - b) / TWO64;
      assert t - b == k * TWO64 + t;
      DivModUnique(b, 0 - k, 0, TWO64);
    }
  }

  lemma ShiftedOut(s: nat, n: nat)
    requires 32 <= n <= 63
    ensures s * Pow2(n - 1) % TWO64 == 0 <==> LowBitsClear(s, n)
  {
    hide Pow2;
    Pow2Values();
    Pow2Add(65 - n, n - 1);
    DivModScale(s, Pow2(65 - n), Pow2(n - 1));
    Unscale(s % Pow2(65 - n), Pow2(n - 1));
  }

  lemma Unscale(m: nat, k: nat)
    requires k > 0
    ensures m * k == 0 <==> m == 0
  {
    if m > 0 { MulAtLeast(m, k); }
  }

  /** The step leaves the remainder by the aligned divisor exactly when that shift is
      right, or what it shifts wrongly is lost at the top anyway. */
  lemma PartialIff(s0: Normal, s1: Normal, n: nat)
    requires 32 <= n <= 63
    ensures Partial(s0, s1, n) == s0 * Pow2(n) % s1 <==> !ShiftShort(s0, s1, n)
  {
    if s0 >= s1 { PartialLong(s0, s1, n); } else { PartialShort(s0, s1, n); }
  }

  lemma PartialLong(s0: Normal, s1: Normal, n: nat)
    requires 32 <= n <= 63 && s0 >= s1
    ensures Partial(s0, s1, n) == s0 * Pow2(n) % s1
  {
    hide Pow2, Partial;
    PartialIs(s0, s1, n, s0 * Pow2(n) / s1);
    LowBitsSuffice(s0 * Pow2(n), s1, s0 * Pow2(n) / s1);
  }

  lemma PartialShort(s0: Normal, s1: Normal, n: nat)
    requires 32 <= n <= 63 && s0 < s1
    ensures Partial(s0, s1, n) == s0 * Pow2(n) % s1 <==> LowBitsClear(s0, n)
  {
    hide Pow2, Partial, LowBitsClear;
    RemainderFits(s0 * Pow2(n), s1);
    FloorAtMost(s0 * Pow2(n), s1);
    ShortParts(s0, s1, n, s0 * Pow2(n), s0 * Pow2(n) / s1, s0 * Pow2(n) % s1);
  }

  lemma ShortParts(s0: Normal, s1: Normal, n: nat, x: nat, q: nat, t: nat)
    requires 32 <= n <= 63 && s0 < s1 && x == s0 * Pow2(n) && q == x / s1 && t == x % s1 && t < TWO64
    ensures Partial(s0, s1, n) == t <==> LowBitsClear(s0, n)
  {
    hide Pow2, Partial, LowBitsClear;
    PartialIs(s0, s1, n, q);
    LowBitsSuffice(x, s1, q);
    ProductPositive(s1, q);
    ShortIff(s0, n, s1 * q, t);
  }

  lemma ProductPositive(a: nat, b: nat)
    ensures a * b >= 0
  {
  }

  lemma ShortIff(s0: Normal, n: nat, p: nat, t: nat)
    requires 32 <= n <= 63 && t < TWO64 && (s0 * Pow2(n) - p) % TWO64 == t
    ensures (s0 * Pow2(n - 1) - p) % TWO64 == t <==> LowBitsClear(s0, n)
  {
    hide Pow2, LowBitsClear;
    Doubled(n - 1);
    MulAssoc(s0, 2, Pow2(n - 1));
    HalfShort(s0 * Pow2(n - 1), p, t);
    ShiftedOut(s0, n);
  }

  lemma PartialIs(s0: Normal, s1: Normal, n: nat, q: nat)
    requires 32 <= n <= 63 && q == s0 * Pow2(n) / s1
    ensures Partial(s0, s1, n) == (s0 * Pow2(if s0 >= s1 then n else n - 1) - s1 * q) % TWO64
  {
    hide Pow2, UDiv;
    UDivNormal(s0, s1, n);
    ChoppedQuotient(s0, s1, n);
    QuotientExponent(s0, s1, n);
  }

  /** Taking p from half of what it should be taken from. */
  lemma HalfShort(half: nat, p: nat, t: nat)
    requires t < TWO64 && (half + half - p) % TWO64 == t
    ensures (half - p) % TWO64 == t <==> half % TWO64 == 0
  {
    ModSubRight(half + half - p, half, TWO64);
    SameMod(t, half);
  }

  lemma QuotientExponent(s0: Normal, s1: Normal, n: nat)
    ensures UDiv(s0, s1, n).e == if s0 >= s1 then n else n - 1
  {
  }

  lemma RemainderFits(x: nat, s1: Normal)
    ensures 0 <= x % s1 < TWO64
  {
  }

  /** Such operands: x = (2^63 + 1) * 2^64 and y = 3 * 2^62, where n is 32. */
  lemma PartialGoesWrong()
    ensures var s0: Normal, s1: Normal := TWO63 + 1, TWO63 + TWO63 / 2; ShiftShort(s0, s1, 32)
  {
    Pow2Values();
    Doubled(32);
    DivModUnique(TWO63 + 1, 0x4000_0000, 1, 0x2_0000_0000);
  }
}
