/** Integer division, remainders and powers of two: the facts about products that
    the rest of the project needs, each proved once and called by name. */
module Arith {

  lemma MulAtLeast(d: int, m: int)
    requires d >= 1 && m >= 0
    ensures d * m >= m
  {
  }

  lemma MulMono(a: int, b: int, m: int)
    requires a <= b && m >= 0
    ensures a * m <= b * m
  {
  }

  lemma MulMonoRight(m: int, a: int, b: int)
    requires a <= b && m >= 0
    ensures m * a <= m * b
  {
  }

  lemma Commute(x: int, y: int)
    ensures x * y == y * x
  {
  }

  lemma MulStrict(a: int, b: int, m: int)
    requires a < b && m > 0
    ensures a * m < b * m
  {
  }

  lemma MulCancel(a: int, b: int, m: int)
    requires m > 0 && a * m == b * m
    ensures a == b
  {
    if a < b { MulStrict(a, b, m); } else if b < a { MulStrict(b, a, m); }
  }

  lemma SmallMultiple(e: int, m: int)
    requires m > 0 && -m < e * m < m
    ensures e == 0
  {
    if e >= 1 {
      MulAtLeast(e, m);
    } else if e <= -1 {
      assert (-e) * m == -(e * m);
      MulAtLeast(-e, m);
    }
  }

  lemma DivModUnique(x: int, q: int, r: int, d: int)
    requires d > 0 && 0 <= r < d && x == q * d + r
    ensures x / d == q && x % d == r
  {
    var q', r' := x / d, x % d;
    assert x == q' * d + r';
    assert (q - q') * d == r' - r by { assert (q - q') * d == q * d - q' * d; }
    SmallMultiple(q - q', d);
  }

  lemma ModEqual(a: int, b: int, k: int, m: int)
    requires m > 0 && a == b + k * m
    ensures a % m == b % m
  {
    var q, r := b / m, b % m;
    assert b == q * m + r;
    assert (q + k) * m == q * m + k * m;
    DivModUnique(a, q + k, r, m);
  }

  lemma ModSmall(a: int, m: int)
    requires 0 <= a < m
    ensures a % m == a && a / m == 0
  {
    DivModUnique(a, 0, a, m);
  }

  lemma ModAdd(a: int, b: int, m: int)
    requires m > 0
    ensures (a % m + b % m) % m == (a + b) % m
  {
    assert a == a / m * m + a % m && b == b / m * m + b % m;
    assert (a / m + b / m) * m == a / m * m + b / m * m;
    ModEqual(a + b, a % m + b % m, a / m + b / m, m);
  }

  lemma ModSub(a: int, b: int, m: int)
    requires m > 0
    ensures (a % m - b % m) % m == (a - b) % m
  {
    assert a == a / m * m + a % m && b == b / m * m + b % m;
    assert (a / m - b / m) * m == a / m * m - b / m * m;
    ModEqual(a - b, a % m - b % m, a / m - b / m, m);
  }

  lemma ModAddLeft(a: int, b: int, m: int)
    requires m > 0
    ensures (a % m + b) % m == (a + b) % m && (b + a % m) % m == (a + b) % m
  {
    assert a == a / m * m + a % m;
    ModEqual(a + b, a % m + b, a / m, m);
  }

  lemma ModSubRight(a: int, b: int, m: int)
    requires m > 0
    ensures (b - a % m) % m == (b - a) % m && (a % m - b) % m == (a - b) % m
  {
    assert a == a / m * m + a % m;
    assert b - a % m == b - a + a / m * m;
    ModEqual(b - a % m, b - a, a / m, m);
    ModEqual(a - b, a % m - b, a / m, m);
  }

  lemma ModMulLeft(a: int, b: int, m: int)
    requires m > 0
    ensures (a % m * b) % m == (a * b) % m && (b * (a % m)) % m == (a * b) % m
  {
    var q, r := a / m, a % m;
    assert a * b == r * b + (q * b) * m by {
      assert a == q * m + r;
      MulSplit(q, m, r, b);
    }
    ModEqual(a * b, r * b, q * b, m);
    assert b * r == r * b;
  }

  lemma MulSplit(q: int, m: int, r: int, b: int)
    ensures (q * m + r) * b == r * b + (q * b) * m
  {
    assert (q * m + r) * b == q * m * b + r * b;
    assert q * m * b == q * b * m;
  }

  lemma ModMul(a: int, b: int, m: int)
    requires m > 0
    ensures (a % m * (b % m)) % m == (a * b) % m
  {
    ModMulLeft(a, b % m, m);
    ModMulLeft(b, a, m);
    assert b * a == a * b;
  }

  lemma MulAssoc(x: int, y: int, z: int)
    ensures x * (y * z) == x * y * z
  {
  }

  lemma MulDistribute(x: int, y: int, z: int)
    ensures (x + y) * z == x * z + y * z
    ensures (x - y) * z == x * z - y * z
  {
  }
}
