/** Powers of two: the size classes of the buddy allocator. */
module Powers {

  /** True iff x is 2^k for some k >= 0. */
  predicate IsPow2(x: int)
    decreases if x < 0 then 0 else x
  {
    x >= 1 && (x == 1 || (x % 2 == 0 && IsPow2(x / 2)))
  }

  /** The least power of two that is at least n (1 when n <= 1), defined by
      halving the request rather than by doubling a candidate. */
  function RoundUp(n: int): (r: nat)
    ensures IsPow2(r) && n <= r
    ensures r == 1 || r / 2 < n
    decreases n
  {
    if n <= 1 then 1 else 2 * RoundUp((n + 1) / 2)
  }

  lemma Pow2Double(p: int)
    requires IsPow2(p)
    ensures IsPow2(2 * p) && (2 * p) / 2 == p
  {
  }

  lemma Pow2Half(p: int)
    requires IsPow2(p) && p >= 2
    ensures IsPow2(p / 2) && (p / 2) * 2 == p
  {
  }

  /** A smaller power of two is at most half of a larger one. */
  lemma {:induction false} Pow2Below(p: int, q: int)
    requires IsPow2(p) && IsPow2(q) && p < q
    ensures p <= q / 2
    decreases q
  {
    if q / 2 < p {
      assert p >= 2 && p % 2 == 0 && q % 2 == 0;
      Pow2Below(q / 2, p);
    }
  }

  lemma MulAtLeast(d: int, m: int)
    requires d >= 1 && m > 0
    ensures d * m >= m
  {
  }

  /** Euclidean division has a unique quotient and remainder. */
  lemma ModUnique(x: int, m: int, q: int, r: int)
    requires m > 0 && 0 <= r < m && x == q * m + r
    ensures x % m == r && x / m == q
  {
    var q', r' := x / m, x % m;
    var d := q' - q;
    assert d * m == r - r' by {
      assert q' * m + r' == q * m + r;
    }
    if d >= 1 {
      MulAtLeast(d, m);
    } else if d <= -1 {
      MulAtLeast(-d, m);
    }
  }

  /** Twice a multiple of m is a multiple of m. */
  lemma DoubleOfMultiple(x: int, m: int)
    requires m > 0 && x % m == 0
    ensures (2 * x) % m == 0
  {
    var k := x / m;
    assert x == k * m;
    assert 2 * x == (2 * k) * m;
    ModUnique(2 * x, m, 2 * k, 0);
  }

  /** Of two powers of two, the larger is a multiple of the smaller. */
  lemma {:induction false} Pow2Divides(p: int, q: int)
    requires IsPow2(p) && IsPow2(q) && p <= q
    ensures q % p == 0
    decreases q
  {
    if p < q {
      Pow2Below(p, q);
      Pow2Half(q);
      Pow2Divides(p, q / 2);
      DoubleOfMultiple(q / 2, p);
    } else {
      ModUnique(q, p, 1, 0);
    }
  }

  /** The three conditions of RoundUp's contract determine its result. */
  lemma RoundUpUnique(n: int, r: int)
    requires IsPow2(r) && n <= r && (r == 1 || r / 2 < n)
    ensures r == RoundUp(n)
  {
    var u := RoundUp(n);
    if r < u {
      Pow2Below(r, u);
    } else if u < r {
      Pow2Below(u, r);
    }
  }

  /** RoundUp leaves a power of two unchanged. */
  lemma RoundUpFixesPow2(n: int)
    requires IsPow2(n)
    ensures RoundUp(n) == n
  {
    RoundUpUnique(n, n);
  }

  /** RoundUp(n) is below every power of two that is at least n. */
  lemma RoundUpLeast(n: int, p: int)
    requires IsPow2(p) && n <= p
    ensures RoundUp(n) <= p
  {
    if RoundUp(n) > p {
      Pow2Below(p, RoundUp(n));
    }
  }

  /** 2^k. */
  function Pow2(k: nat): nat
  {
    if k == 0 then 1 else 2 * Pow2(k - 1)
  }

  lemma {:induction false} Pow2IsPow2(k: nat)
    ensures IsPow2(Pow2(k))
  {
    if k > 0 {
      Pow2IsPow2(k - 1);
      Pow2Double(Pow2(k - 1));
    }
  }

  lemma Pow2Of31()
    ensures IsPow2(0x8000_0000)
  {
    Pow2IsPow2(31);
    assert Pow2(4) == 16;
    assert Pow2(8) == 256;
    assert Pow2(12) == 4096;
    assert Pow2(16) == 65536;
    assert Pow2(20) == 1048576;
    assert Pow2(24) == 16777216;
    assert Pow2(28) == 268435456;
    assert Pow2(31) == 0x8000_0000;
  }

  /** An offset aligned to a size class is aligned to the class below, and so
      is the midpoint of the block. */
  lemma AlignHalf(c: int, s: int)
    requires IsPow2(s) && s >= 2 && c % s == 0
    ensures c % (s / 2) == 0 && (c + s / 2) % (s / 2) == 0
  {
    var h := s / 2;
    Pow2Half(s);
    var k := c / s;
    assert c == k * s;
    assert c == (2 * k) * h;
    ModUnique(c, h, 2 * k, 0);
    assert c + h == (2 * k + 1) * h;
    ModUnique(c + h, h, 2 * k + 1, 0);
  }

  /** If m divides a and a - b, it divides b. */
  lemma ModDifference(a: int, b: int, m: int)
    requires m > 0 && a % m == 0 && (a - b) % m == 0
    ensures b % m == 0
  {
    var ka, kd := a / m, (a - b) / m;
    assert a == ka * m && a - b == kd * m;
    assert b == (ka - kd) * m;
    ModUnique(b, m, ka - kd, 0);
  }
}
