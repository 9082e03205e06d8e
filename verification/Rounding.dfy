/** Rounding of magnitudes, specified twice: as rounding of a quotient to an integer,
    and as the rounding-direction attributes of section 4.3 of IEEE 754-2008 for a
    binary format. The two are connected by RoundToFormat. */
module Rounding {
  import opened Arith
  import opened Powers

  datatype Mode = RND | DOWN | UP | CHOP

  /** Directed rounding that makes the magnitude larger. */
  predicate Away(mode: Mode, neg: bool) {
    (mode == DOWN && neg) || (mode == UP && !neg)
  }

  function RoundMag(mode: Mode, neg: bool, x: nat, q: nat): nat
    requires q > 0
  {
    var f, r := x / q, x % q;
    if mode == RND then
      if 2 * r > q || (2 * r == q && f % 2 == 1) then f + 1 else f
    else if Away(mode, neg) && r > 0 then f + 1 else f
  }

  function Dist(x: int, y: int): nat {
    if x < y then y - x else x - y
  }

  /** n is x / q rounded to an integer, said without dividing. */
  ghost predicate IsRounding(mode: Mode, neg: bool, x: nat, q: nat, n: nat) {
    if mode == RND then
      2 * Dist(x, n * q) <= q && (2 * Dist(x, n * q) == q ==> n % 2 == 0)
    else if Away(mode, neg) then
      n * q - q < x <= n * q
    else
      n * q <= x < n * q + q
  }

  lemma RoundMagIsRounding(mode: Mode, neg: bool, x: nat, q: nat)
    requires q > 0
    ensures IsRounding(mode, neg, x, q, RoundMag(mode, neg, x, q))
  {
    var f, r := x / q, x % q;
    assert x == f * q + r;
    assert (f + 1) * q == f * q + q;
  }

  lemma IsRoundingUnique(mode: Mode, neg: bool, x: nat, q: nat, m: nat, n: nat)
    requires q > 0
    requires IsRounding(mode, neg, x, q, m) && IsRounding(mode, neg, x, q, n)
    ensures m == n
  {
    var d := m - n;
    assert m * q - n * q == d * q by { MulDistribute(m, n, q); }
    if d >= 1 {
      MulAtLeast(d, q);
      if d >= 2 {
        MulMono(2, d, q);
      }
    } else if d <= -1 {
      assert (-d) * q == n * q - m * q by { MulDistribute(n, m, q); }
      MulAtLeast(-d, q);
      if d <= -2 {
        MulMono(2, -d, q);
      }
    }
  }

  /** Rounding does not depend on the unit. */
  lemma RoundMagScale(mode: Mode, neg: bool, x: nat, q: nat, k: nat)
    requires q > 0 && k > 0
    ensures q * k > 0
    ensures RoundMag(mode, neg, x * k, q * k) == RoundMag(mode, neg, x, q)
  {
    DivModScale(x, q, k);
    var r := x % q;
    assert 2 * (r * k) == 2 * r * k;
    if 2 * r < q { MulStrict(2 * r, q, k); }
    if q < 2 * r { MulStrict(q, 2 * r, k); }
    if r > 0 { MulAtLeast(r, k); }
  }

  lemma RoundMagExact(mode: Mode, neg: bool, n: nat, q: nat)
    requires q > 0
    ensures RoundMag(mode, neg, n * q, q) == n
    ensures n * q % q == 0
  {
    DivModUnique(n * q, n, 0, q);
  }

  lemma RoundMagNear(mode: Mode, neg: bool, x: nat, q: nat)
    requires q > 0
    ensures x / q <= RoundMag(mode, neg, x, q) <= x / q + 1
    ensures x % q == 0 ==> RoundMag(mode, neg, x, q) == x / q
  {
  }

  /** A fraction below one half gives 0, or 1 when rounding away from zero,
      whatever the unit. */
  lemma RoundMagTiny(mode: Mode, neg: bool, x: nat, q: nat)
    requires 2 * x < q
    ensures RoundMag(mode, neg, x, q) == if Away(mode, neg) && x > 0 then 1 else 0
  {
    ModSmall(x, q);
  }

  lemma FloorAtLeast(x: nat, h: nat, q: nat)
    requires q > 0 && h * q <= x
    ensures h <= x / q && h * q <= x / q * q
  {
    var f := x / q;
    assert x == f * q + x % q;
    if f < h {
      MulMono(f + 1, h, q);
      MulDistribute(f, 1, q);
    } else {
      MulMono(h, f, q);
    }
  }

  lemma FloorBelow(x: nat, h: nat, q: nat)
    requires q > 0 && x < h * q
    ensures x / q < h
  {
    if x / q >= h {
      MulMono(h, x / q, q);
    }
  }

  // ----- binary formats -----

  ghost predicate Encodes(p: nat, kmin: nat, n: nat, k: nat, v: nat) {
    k >= kmin && n < Pow2(p) && v == n * Pow2(k)
  }

  /** The magnitudes n * 2^k with a significand n of p bits and k at least kmin:
      a binary format with gradual underflow and no largest exponent. */
  ghost predicate Representable(p: nat, kmin: nat, v: nat) {
    exists n: nat, k: nat :: Encodes(p, kmin, n, k, v)
  }

  /** v has an even significand in its canonical representation. */
  ghost predicate EvenSignificand(p: nat, kmin: nat, v: nat)
    requires p >= 1
  {
    exists n: nat, k: nat :: Encodes(p, kmin, n, k, v) && (k == kmin || n >= Pow2(p - 1)) && n % 2 == 0
  }

  /** y is x correctly rounded to the format in the given direction. */
  ghost predicate CorrectlyRounded(p: nat, kmin: nat, mode: Mode, neg: bool, x: nat, y: nat)
    requires p >= 1
  {
    && Representable(p, kmin, y)
    && (mode == RND ==>
          forall z: nat :: Representable(p, kmin, z) ==>
            && Dist(x, y) <= Dist(x, z)
            && (Dist(x, y) == Dist(x, z) && z != y ==> EvenSignificand(p, kmin, y)))
    && (mode != RND && Away(mode, neg) ==>
          x <= y && forall z: nat :: Representable(p, kmin, z) && x <= z ==> y <= z)
    && (mode != RND && !Away(mode, neg) ==>
          y <= x && forall z: nat :: Representable(p, kmin, z) && z <= x ==> z <= y)
  }

  /** 2^k is the spacing of the format around x. */
  ghost predicate Quantum(p: nat, kmin: nat, x: nat, k: nat)
    requires p >= 1
  {
    k >= kmin && x < Pow2(p) * Pow2(k) && (k == kmin || Pow2(p - 1) * Pow2(k) <= x)
  }

  lemma MultipleOutside(x: nat, c: nat, q: nat)
    requires q > 0
    ensures c * q <= x / q * q || x / q * q + q <= c * q
  {
    var f := x / q;
    if c <= f {
      MulMono(c, f, q);
    } else {
      MulMono(f + 1, c, q);
      MulDistribute(f, 1, q);
    }
  }

  /** No value of the format lies strictly between two neighbouring multiples of the
      spacing around x. */
  lemma NothingBetween(p: nat, kmin: nat, x: nat, k: nat, z: nat)
    requires p >= 1 && Quantum(p, kmin, x, k) && Representable(p, kmin, z)
    ensures var q := Pow2(k); z <= x / q * q || x / q * q + q <= z
  {
    var q := Pow2(k);
    var n: nat, j: nat :| Encodes(p, kmin, n, j, z);
    if j >= k {
      Pow2Add(j - k, k);
      MulAssoc(n, Pow2(j - k), q);
      MultipleOutside(x, n * Pow2(j - k), q);
    } else {
      LowerBinade(p, j, k);
      MulMono(n, Pow2(p), Pow2(j));
      FloorAtLeast(x, Pow2(p - 1), q);
    }
  }

  lemma LowerBinade(p: nat, j: nat, k: nat)
    requires p >= 1 && j < k
    ensures Pow2(p) * Pow2(j) <= Pow2(p - 1) * Pow2(k)
  {
    Pow2Add(p, j);
    Pow2Add(p - 1, k);
    Pow2Mono(p + j, p - 1 + k);
  }

  /** The rounded multiple of the spacing is a value of the format; its significand
      is even when the multiple is. */
  lemma RoundedRepresentable(p: nat, kmin: nat, x: nat, k: nat, n: nat)
    requires p >= 2 && Quantum(p, kmin, x, k)
    requires x / Pow2(k) <= n <= x / Pow2(k) + 1
    ensures n <= Pow2(p)
    ensures Representable(p, kmin, n * Pow2(k))
    ensures n % 2 == 0 ==> EvenSignificand(p, kmin, n * Pow2(k))
  {
    FloorBelow(x, Pow2(p), Pow2(k));
    if n == Pow2(p) {
      CarryOut(p, k);
      TopBinadeEven(p, kmin, k + 1, n * Pow2(k));
    } else {
      if k > kmin {
        FloorAtLeast(x, Pow2(p - 1), Pow2(k));
      }
      CanonicalEven(p, kmin, n, k);
    }
  }

  lemma CanonicalEven(p: nat, kmin: nat, n: nat, k: nat)
    requires p >= 1 && k >= kmin && n < Pow2(p) && (k == kmin || n >= Pow2(p - 1))
    ensures Representable(p, kmin, n * Pow2(k))
    ensures n % 2 == 0 ==> EvenSignificand(p, kmin, n * Pow2(k))
  {
    assert Encodes(p, kmin, n, k, n * Pow2(k));
  }

  lemma TopBinadeEven(p: nat, kmin: nat, k: nat, v: nat)
    requires p >= 2 && k >= kmin && v == Pow2(p - 1) * Pow2(k)
    ensures Representable(p, kmin, v) && EvenSignificand(p, kmin, v)
  {
    Doubled(p - 2);
    assert Encodes(p, kmin, Pow2(p - 1), k, v);
  }

  lemma CarryOut(p: nat, k: nat)
    requires p >= 1
    ensures Pow2(p) * Pow2(k) == Pow2(p - 1) * Pow2(k + 1)
  {
    Pow2Add(p, k);
    Pow2Add(p - 1, k + 1);
  }

  /** Rounding x to a multiple of the spacing around it is correct rounding to the
      whole format. */
  lemma RoundToFormat(p: nat, kmin: nat, mode: Mode, neg: bool, x: nat, k: nat)
    requires p >= 2 && Quantum(p, kmin, x, k)
    ensures var n := RoundMag(mode, neg, x, Pow2(k));
      n <= Pow2(p) && CorrectlyRounded(p, kmin, mode, neg, x, n * Pow2(k))
  {
    var n := RoundMag(mode, neg, x, Pow2(k));
    RoundMagNear(mode, neg, x, Pow2(k));
    RoundedRepresentable(p, kmin, x, k, n);
    var lo, r, up := Decision(mode, neg, x, Pow2(k), n);
    forall z: nat | Representable(p, kmin, z)
      ensures z <= lo || lo + Pow2(k) <= z
    {
      NothingBetween(p, kmin, x, k, z);
    }
    NeighbourIsRounded(p, kmin, mode, neg, x, Pow2(k), lo, r, up, n * Pow2(k));
  }

  lemma Decision(mode: Mode, neg: bool, x: nat, q: nat, n: nat) returns (lo: nat, r: nat, up: bool)
    requires q > 0 && n == RoundMag(mode, neg, x, q)
    ensures lo == x / q * q && r < q && x == lo + r
    ensures n * q == if up then lo + q else lo
    ensures mode == RND ==> (2 * r > q ==> up) && (2 * r < q ==> !up) && (2 * r == q ==> n % 2 == 0)
    ensures mode != RND ==> up == (Away(mode, neg) && r > 0)
  {
    var f := x / q;
    lo, r, up := f * q, x % q, n == f + 1;
    UpRule(mode, neg, x, q);
    hide RoundMag, Away;
    Remade(x, q);
    if up { MulDistribute(f, 1, q); }
  }

  /** When RoundMag goes up. */
  lemma UpRule(mode: Mode, neg: bool, x: nat, q: nat)
    requires q > 0
    ensures var f, r, n := x / q, x % q, RoundMag(mode, neg, x, q);
      && (n == f || n == f + 1)
      && (mode == RND ==> (2 * r > q ==> n == f + 1) && (2 * r < q ==> n == f) && (2 * r == q ==> n % 2 == 0))
      && (mode != RND ==> (n == f + 1) == (Away(mode, neg) && r > 0))
  {
  }

  lemma Remade(x: nat, q: nat)
    requires q > 0
    ensures x == x / q * q + x % q && 0 <= x / q * q
  {
    MulMono(0, x / q, q);
  }

  /** With no value of the format strictly between lo and lo + q, the neighbour of x
      that RoundMag picks is the correctly rounded value. */
  lemma NeighbourIsRounded(p: nat, kmin: nat, mode: Mode, neg: bool, x: nat, q: nat, lo: nat, r: nat, up: bool, y: nat)
    requires p >= 1 && r < q && x == lo + r && y == if up then lo + q else lo
    requires Representable(p, kmin, y) && (mode == RND && 2 * r == q ==> EvenSignificand(p, kmin, y))
    requires mode == RND ==> (2 * r > q ==> up) && (2 * r < q ==> !up)
    requires mode != RND ==> up == (Away(mode, neg) && r > 0)
    requires forall z: nat :: Representable(p, kmin, z) ==> z <= lo || lo + q <= z
    ensures CorrectlyRounded(p, kmin, mode, neg, x, y)
  {
  }
}
