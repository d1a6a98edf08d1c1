/** Facts about Euclidean division and remainder on natural numbers, used to
    relate the bit-level algorithms to their arithmetic meaning. */
module Arith {

  /** Division and remainder are determined by any decomposition a == q*m + r
      with 0 <= r < m. */
  lemma DivModUnique(a: int, m: int, q: int, r: int)
    requires m > 0 && 0 <= r < m && a == q * m + r
    ensures a / m == q && a % m == r
  {
    var d := a / m;
    assert a == d * m + a % m;
    assert (d - q) * m == r - a % m;
    SmallMultipleIsZero(d - q, m);
  }

  lemma SmallMultipleIsZero(k: int, m: int)
    requires m > 0 && -m < k * m < m
    ensures k == 0
  {
  }

  lemma MulAssoc(a: int, b: int, c: int)
    ensures a * (b * c) == (a * b) * c
  {
  }

  lemma MulComm(a: int, b: int)
    ensures a * b == b * a
  {
  }

  lemma MulNonNegative(a: nat, b: nat)
    ensures a * b >= 0
  {
  }

  /** Peeling the lowest binary digit off a remainder. */
  lemma ModTwoStep(n: nat, p: nat)
    requires p > 0
    ensures n % (2 * p) == n % 2 + 2 * ((n / 2) % p)
  {
    var h := n / 2;
    var q := h / p;
    assert h == q * p + h % p;
    assert n == 2 * h + n % 2;
    assert n == q * (2 * p) + (n % 2 + 2 * (h % p));
    DivModUnique(n, 2 * p, q, n % 2 + 2 * (h % p));
  }

  /** (x * p) mod (q * p) keeps x mod q in the upper position. */
  lemma MulModShift(x: nat, p: nat, q: nat)
    requires p > 0 && q > 0
    ensures (x * p) % (q * p) == (x % q) * p
  {
    var t := x / q;
    assert x == t * q + x % q;
    assert x * p == t * (q * p) + (x % q) * p by {
      assert x * p == (t * q + x % q) * p;
    }
    assert (x % q) * p < q * p by {
      MulStrict(x % q, q, p);
    }
    DivModUnique(x * p, q * p, t, (x % q) * p);
  }

  lemma MulStrict(a: nat, b: nat, p: nat)
    requires a < b && p > 0
    ensures a * p < b * p
  {
  }

  /** Adding a multiple of m does not change the remainder (integers). */
  lemma ModShift(i: int, k: int, m: int)
    requires m > 0
    ensures (i + k * m) % m == i % m
    ensures (i + k * m) / m == i / m + k
  {
    assert i == (i / m) * m + i % m;
    assert i + k * m == (i / m + k) * m + i % m;
    DivModUnique(i + k * m, m, i / m + k, i % m);
  }

  /** A multiple of m followed by y leaves y mod m. */
  lemma ModMultipleAdd(k: nat, m: nat, y: nat)
    requires m > 0
    ensures (k * m + y) % m == y % m
  {
    assert y == (y / m) * m + y % m;
    assert k * m + y == (k + y / m) * m + y % m;
    DivModUnique(k * m + y, m, k + y / m, y % m);
  }

  lemma MultipleMod(a: int, b: int, m: int)
    requires m > 0
    ensures (a * (b * m)) % m == 0
  {
    MulAssoc(a, b, m);
    DivModUnique(a * (b * m), m, a * b, 0);
  }

  /** Adding under a remainder may reduce either operand first. */
  lemma ModAddLeft(a: nat, b: nat, m: nat)
    requires m > 0
    ensures (a % m + b) % m == (a + b) % m
  {
    assert a == (a / m) * m + a % m;
    ModMultipleAdd(a / m, m, a % m + b);
  }

  lemma ModAddRight(a: nat, b: nat, m: nat)
    requires m > 0
    ensures (a + b % m) % m == (a + b) % m
  {
    ModAddLeft(b, a, m);
    assert a + b % m == b % m + a;
  }

  /** Wrapping after every addition wraps the whole sum. */
  lemma ModSumOfThree(p: nat, q: nat, r: nat, m: nat)
    requires m > 0
    ensures ((p % m + q % m) % m + r % m) % m == (p + q + r) % m
  {
    ModAddLeft(p, q % m, m);
    ModAddRight(p, q, m);
    var s := (p % m + q % m) % m;
    assert s == (p + q) % m;
    ModAddLeft(p + q, r % m, m);
    ModAddRight(p + q, r, m);
  }

  /** Below 2m, the remainder subtracts m at most once. */
  lemma ModOnce(x: nat, m: nat)
    requires 0 < m && x < 2 * m
    ensures x % m == if x >= m then x - m else x
  {
    if x >= m {
      DivModUnique(x, m, 1, x - m);
    } else {
      DivModUnique(x, m, 0, x);
    }
  }

  /** The quotient of natural numbers is a natural number no larger than the dividend. */
  lemma DivIsNat(a: nat, m: nat)
    requires m > 0
    ensures 0 <= a / m <= a
  {
    var q := a / m;
    assert a == q * m + a % m;
    if q < 0 {
      MulMonotone(q, -1, m);
    } else {
      MulMonotone(1, m, q);
    }
  }

  lemma ModSmall(a: nat, m: nat)
    requires a < m
    ensures a % m == a && a / m == 0
  {
    DivModUnique(a, m, 0, a);
  }

  /** Dividing in two steps. */
  lemma DivDiv(a: nat, p: nat, q: nat)
    requires p > 0 && q > 0
    ensures a / p / q == a / (p * q)
  {
    var s := a / p;
    var t := s / q;
    var r1, r2 := a % p, s % q;
    assert a == s * p + r1;
    assert s == t * q + r2;
    assert s * p == t * (p * q) + r2 * p by {
      Distribute(t * q, r2, p);
      MulAssoc(t, q, p);
      MulComm(q, p);
    }
    assert r2 * p + r1 < p * q by {
      MulStrict(r2, q, p);
      MulComm(q, p);
      assert r2 * p <= (q - 1) * p by {
        MulMonotone(r2, q - 1, p);
      }
      Distribute(q, -1, p);
    }
    DivModUnique(a, p * q, t, r2 * p + r1);
  }

  lemma Distribute(x: int, y: int, p: int)
    ensures (x + y) * p == x * p + y * p
  {
  }

  lemma MulMonotone(a: int, b: int, p: nat)
    requires a <= b
    ensures a * p <= b * p
  {
  }

  /** A factor may be reduced modulo m before multiplying under a remainder. */
  lemma ModMulLeft(x: nat, y: nat, m: nat)
    requires m > 0
    ensures ((x % m) * y) % m == (x * y) % m
  {
    var k, q := x / m, x % m;
    assert x * y == (k * y) * m + q * y by {
      assert x == k * m + q;
      Distribute(k * m, q, y);
      MulAssoc(k, m, y);
      MulComm(m, y);
      MulAssoc(k, y, m);
    }
    MulNonNegative(k, y);
    MulNonNegative(q, y);
    ModMultipleAdd(k * y, m, q * y);
  }

  /** Multiplying the complement m - q gives the complement of the product, modulo m. */
  lemma ModComplementMul(q: nat, y: nat, m: nat)
    requires 0 < m && q <= m
    ensures ((m - q) * y) % m == (m - (q * y) % m) % m
  {
    var t, r := (q * y) / m, (q * y) % m;
    assert q * y == t * m + r;
    assert (m - q) * y == m * y - q * y by {
      Distribute(m, -(q as int), y);
    }
    if r == 0 {
      assert (m - q) * y == (y - t) * m;
      DivModUnique((m - q) * y, m, y - t, 0);
      DivModUnique(m, m, 1, 0);
    } else {
      assert (m - q) * y == (y - t - 1) * m + (m - r);
      DivModUnique((m - q) * y, m, y - t - 1, m - r);
      ModSmall(m - r, m);
    }
  }

  /** Half of an even modulus times y leaves 0 or the half. */
  lemma HalfMultiple(h: nat, y: nat)
    requires h > 0
    ensures (h * y) % (2 * h) == if y % 2 == 0 then 0 else h
  {
    var k := y / 2;
    assert y == 2 * k + y % 2;
    assert h * y == k * (2 * h) + h * (y % 2);
    DivModUnique(h * y, 2 * h, k, h * (y % 2));
  }

  /** A difference in a higher digit outweighs everything below it. */
  lemma HigherDigitWins(lo1: int, lo2: int, p: int, w: int)
    requires 0 <= lo1 < p && 0 <= lo2
    ensures lo1 + p * (2 * w) < lo2 + p * (1 + 2 * w)
  {
    assert p * (1 + 2 * w) == p + p * (2 * w);
  }
}
