/**
 * Integer facts used to model the runtime's bit operations on unsigned
 * values: a shift by k is a multiplication or division by 2^k, and a mask
 * with 2^k - 1 is a remainder modulo 2^k.
 */
module Arith {
  function Pow2(k: nat): (r: nat)
    ensures r >= 1
  {
    if k == 0 then 1 else 2 * Pow2(k - 1)
  }

  lemma Pow2Add(a: nat, b: nat)
    ensures Pow2(a + b) == Pow2(a) * Pow2(b)
  {
    if a > 0 {
      Pow2Add(a - 1, b);
    }
  }

  lemma Pow2Values()
    ensures Pow2(8) == 0x100 && Pow2(16) == 0x1_0000 && Pow2(24) == 0x100_0000
  {
    assert Pow2(2) == 4;
    Pow2Add(2, 2);
    Pow2Add(4, 4);
    Pow2Add(8, 8);
    Pow2Add(16, 8);
  }

  lemma Pow2Monotone(a: nat, b: nat)
    requires a <= b
    ensures Pow2(a) <= Pow2(b)
  {
    Pow2Add(a, b - a);
  }

  lemma Pow2AtLeast24(k: nat)
    requires k >= 24
    ensures Pow2(k) >= 0x100_0000
  {
    Pow2Monotone(24, k);
    Pow2Values();
  }

  lemma MulAtLeast(x: int, n: int)
    requires x >= 1 && n > 0
    ensures x * n >= n
  {
    if x > 1 {
      MulAtLeast(x - 1, n);
      assert x * n == (x - 1) * n + n;
    }
  }

  lemma MulSub(a: int, b: int, n: int)
    ensures (a - b) * n == a * n - b * n
  {
  }

  lemma MulAssoc(a: int, b: int, c: int)
    ensures a * (b * c) == (a * b) * c
  {
  }

  /** Adding `n` does not change the remainder modulo `n`. */
  lemma ModAddOnce(a: int, n: int)
    requires n > 0
    ensures (a + n) % n == a % n
  {
    var q, r := a / n, a % n;
    var q2, r2 := (a + n) / n, (a + n) % n;
    assert a == q * n + r;
    assert a + n == q2 * n + r2;
    var d := q2 - (q + 1);
    MulSub(q2, q + 1, n);
    assert (q + 1) * n == q * n + n;
    assert d * n == r - r2;
    if d > 0 {
      MulAtLeast(d, n);
    } else if d < 0 {
      assert (-d) * n == -(d * n);
      MulAtLeast(-d, n);
    }
  }

  /** Adding a multiple of `n` does not change the remainder modulo `n`. */
  lemma ModAddMultiple(a: int, k: int, n: int)
    requires n > 0
    ensures (a + k * n) % n == a % n
    decreases if k < 0 then -k else k
  {
    if k > 0 {
      ModAddMultiple(a, k - 1, n);
      assert a + k * n == (a + (k - 1) * n) + n;
      ModAddOnce(a + (k - 1) * n, n);
    } else if k < 0 {
      ModAddMultiple(a, k + 1, n);
      assert a + (k + 1) * n == (a + k * n) + n;
      ModAddOnce(a + k * n, n);
    }
  }

  /** Reducing modulo a multiple of `n` first does not change the remainder modulo `n`. */
  lemma ModModMultiple(x: int, m: int, n: int)
    requires m > 0 && n > 0
    ensures (x % (m * n)) % n == x % n
  {
    var q := x / (m * n);
    assert x == x % (m * n) + (q * m) * n;
    ModAddMultiple(x % (m * n), q * m, n);
  }

  /** A value already below `n` is its own remainder. */
  lemma ModSmall(k: int, n: int)
    requires 0 <= k < n
    ensures k % n == k
  {
    var q := k / n;
    assert k == q * n + k % n;
    if q >= 1 {
      MulAtLeast(q, n);
    }
  }

  /** Starting `(k - index) % n` steps after `index` lands on residue `k`. */
  lemma ModReach(index: int, k: int, n: int)
    requires 0 <= k < n
    ensures 0 <= (k - index) % n < n && ((k - index) % n + index) % n == k
  {
    var i := (k - index) % n;
    var q := (k - index) / n;
    assert k - index == q * n + i;
    assert (-q) * n == -(q * n);
    assert i + index == k + (-q) * n;
    ModAddMultiple(k, -q, n);
    ModSmall(k, n);
  }

  lemma MulLe(x: int, y: int, a: int)
    requires x <= y && a >= 0
    ensures x * a <= y * a
  {
    if x < y && a > 0 {
      MulSub(y, x, a);
      MulAtLeast(y - x, a);
    }
  }

  lemma Distrib(u: int, v: int, w: int)
    ensures (u + v) * w == u * w + v * w
  {
  }

  /** Division is determined by any quotient and in-range remainder. */
  lemma DivUnique(x: int, m: int, q: int, r: int)
    requires m > 0 && 0 <= r < m && x == q * m + r
    ensures x / m == q && x % m == r
  {
    var q0, r0 := x / m, x % m;
    assert q0 * m + r0 == q * m + r;
    MulSub(q0, q, m);
    if q0 > q {
      MulAtLeast(q0 - q, m);
    } else if q0 < q {
      MulSub(q, q0, m);
      MulAtLeast(q - q0, m);
    }
  }

  /** x / (a * b) is (x / a) / b. */
  lemma DivDiv(x: nat, a: nat, b: nat)
    requires a > 0 && b > 0
    ensures x / (a * b) == (x / a) / b
  {
    var q, r := x / a, x % a;
    var q2, r2 := q / b, q % b;
    assert x == q * a + r;
    assert q == q2 * b + r2;
    Distrib(q2 * b, r2, a);
    MulAssoc(q2, b, a);
    assert x == q2 * (a * b) + (r2 * a + r);
    MulLe(r2, b - 1, a);
    MulSub(b, 1, a);
    assert r2 * a + r < a * b;
    DivUnique(x, a * b, q2, r2 * a + r);
  }

  lemma DivAtMost(x: nat, d: nat)
    requires d >= 1
    ensures 0 <= x / d <= x
  {
    var q := x / d;
    if q > 0 {
      MulAtLeast(d, q);
    }
  }
}
