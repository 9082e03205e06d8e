/** Powers of two, and division by them. */
module Powers {
  import opened Arith

  function Pow2(n: nat): (p: nat)
    ensures p >= 1
  {
    if n == 0 then 1 else 2 * Pow2(n - 1)
  }

  lemma {:induction false} Pow2Add(a: nat, b: nat)
    ensures Pow2(a + b) == Pow2(a) * Pow2(b)
  {
    if a > 0 {
      Pow2Add(a - 1, b);
      MulAssoc(2, Pow2(a - 1), Pow2(b));
    }
  }

  lemma {:induction false} Pow2Mono(a: nat, b: nat)
    requires a <= b
    ensures Pow2(a) <= Pow2(b)
    decreases b - a
  {
    if a < b {
      Pow2Mono(a, b - 1);
    }
  }

  lemma Pow2StrictMono(a: nat, b: nat)
    requires a < b
    ensures 2 * Pow2(a) <= Pow2(b)
  {
    Pow2Mono(a + 1, b);
  }

  lemma Doubled(n: nat)
    ensures Pow2(n + 1) == 2 * Pow2(n)
  {
  }

  lemma SmallPowers()
    ensures Pow2(0) == 1 && Pow2(1) == 2 && Pow2(2) == 4 && Pow2(3) == 8 && Pow2(4) == 16
    ensures Pow2(5) == 32 && Pow2(6) == 64 && Pow2(7) == 0x80 && Pow2(8) == 0x100
  {
    Doubled(0);
    Doubled(1);
    Doubled(2);
    Doubled(3);
    Doubled(4);
    Doubled(5);
    Doubled(6);
    Doubled(7);
  }

  lemma Pow2Values()
    ensures Pow2(7) == 0x80
    ensures Pow2(8) == 0x100
    ensures Pow2(11) == 0x800
    ensures Pow2(15) == 0x8000
    ensures Pow2(16) == 0x1_0000
    ensures Pow2(23) == 0x80_0000
    ensures Pow2(24) == 0x100_0000
    ensures Pow2(31) == 0x8000_0000
    ensures Pow2(32) == 0x1_0000_0000
    ensures Pow2(40) == 0x100_0000_0000
    ensures Pow2(48) == 0x1_0000_0000_0000
    ensures Pow2(52) == 0x10_0000_0000_0000
    ensures Pow2(53) == 0x20_0000_0000_0000
    ensures Pow2(63) == 0x8000_0000_0000_0000
    ensures Pow2(64) == 0x1_0000_0000_0000_0000
  {
    SmallPowers();
    Pow2Add(8, 3);
    Pow2Add(8, 7);
    Pow2Add(8, 8);
    Pow2Add(16, 7);
    Pow2Add(16, 8);
    Pow2Add(16, 15);
    Pow2Add(16, 16);
    Pow2Add(32, 8);
    Pow2Add(32, 16);
    Pow2Add(48, 4);
    Doubled(52);
    Pow2Add(32, 31);
    Pow2Add(32, 32);
  }

  lemma ShiftTooFar(x: nat, k: nat)
    requires x >= 2 && k >= 63
    ensures x * Pow2(k) >= 0x1_0000_0000_0000_0000
  {
    Pow2Values();
    Pow2Mono(63, k);
    MulMonoRight(x, Pow2(63), Pow2(k));
  }

  /** Number of doublings that bring x up to 2^63. */
  function LeadingZeros(x: nat): (n: nat)
    requires 0 < x < 0x1_0000_0000_0000_0000
    ensures n <= 63
    ensures 0x8000_0000_0000_0000 <= x * Pow2(n) < 0x1_0000_0000_0000_0000
    decreases 0x1_0000_0000_0000_0000 - x
  {
    if x >= 0x8000_0000_0000_0000 then 0
    else
      var k := LeadingZeros(2 * x);
      assert 2 * x * Pow2(k) == x * Pow2(k + 1);
      assert k + 1 <= 63 by {
        if k >= 63 { ShiftTooFar(2 * x, k); }
      }
      k + 1
  }

  /** The scaling is determined by where it lands. */
  lemma LeadingZerosUnique(x: nat, n: nat)
    requires 0 < x < 0x1_0000_0000_0000_0000
    requires 0x8000_0000_0000_0000 <= x * Pow2(n) < 0x1_0000_0000_0000_0000
    ensures LeadingZeros(x) == n
  {
    var k := LeadingZeros(x);
    if k < n {
      DoublingGrows(x, k, n);
    } else if n < k {
      DoublingGrows(x, n, k);
    }
  }

  lemma DoublingGrows(x: nat, a: nat, b: nat)
    requires a < b
    ensures 2 * (x * Pow2(a)) <= x * Pow2(b)
  {
    Pow2StrictMono(a, b);
    MulMonoRight(x, 2 * Pow2(a), Pow2(b));
    assert x * (2 * Pow2(a)) == 2 * (x * Pow2(a));
  }

  lemma DivDiv(x: nat, a: nat, b: nat)
    requires a > 0 && b > 0
    ensures a * b > 0
    ensures x / a / b == x / (a * b)
  {
    MulAtLeast(a, b);
    var q, r := x / a, x % a;
    var q', r' := q / b, q % b;
    assert x == q * a + r && q == q' * b + r';
    MulDistribute(q' * b, r', a);
    assert q' * b * a == q' * (a * b) by { MulAssoc(q', b, a); assert b * a == a * b; }
    assert x == q' * (a * b) + (r' * a + r);
    assert r' * a + r < a * b by {
      MulMono(r', b - 1, a);
      MulDistribute(b, 1, a);
      assert b * a == a * b;
    }
    assert r' * a >= 0 by { MulMono(0, r', a); }
    DivModUnique(x, q', r' * a + r, a * b);
  }

  /** Scaling dividend and divisor alike. */
  lemma DivModScale(x: nat, q: nat, k: nat)
    requires q > 0 && k > 0
    ensures q * k > 0
    ensures x * k / (q * k) == x / q && x * k % (q * k) == x % q * k
  {
    MulAtLeast(q, k);
    var d, r := x / q, x % q;
    assert x * k == d * (q * k) + r * k by {
      assert x == d * q + r;
      MulDistribute(d * q, r, k);
      MulAssoc(d, q, k);
    }
    MulMono(0, r, k);
    MulStrict(r, q, k);
    DivModUnique(x * k, d, r * k, q * k);
  }
}
