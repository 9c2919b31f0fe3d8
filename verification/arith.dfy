/** Small facts about Euclidean division by a positive divisor, shared by the
    time-axis and downsampling proofs. */
module Arith {

  function Max0(n: int): (r: nat)
    ensures r >= n && (n >= 0 ==> r == n)
  {
    if n < 0 then 0 else n
  }

  function Abs(n: int): (r: nat)
    ensures r == n || r == -n
  {
    if n < 0 then -n else n
  }

  /** Any quotient/remainder pair for a positive divisor is the one `/` and `%` give. */
  lemma DivModUnique(a: int, b: int, q: int, r: int)
    requires b > 0 && a == q * b + r && 0 <= r < b
    ensures a / b == q && a % b == r
  {
    var q', r' := a / b, a % b;
    assert a == q' * b + r';
    assert (q - q') * b == r' - r;
    if q' < q {
      MulAtLeast(q - q', b);
      assert false;
    } else if q < q' {
      MulAtLeast(q' - q, b);
      assert false;
    }
  }

  lemma MulAtLeast(x: int, b: int)
    requires x >= 1 && b > 0
    ensures x * b >= b
  {
    assert x * b == (x - 1) * b + b;
    assert (x - 1) * b >= 0;
  }

  /** Stepping from n - 1 to n raises the quotient by one exactly when n is a multiple of d. */
  lemma DivStep(n: int, d: int)
    requires d > 0
    ensures n / d == (n - 1) / d + (if n % d == 0 then 1 else 0)
  {
    var q, r := n / d, n % d;
    if r == 0 {
      DivModUnique(n - 1, d, q - 1, d - 1);
    } else {
      DivModUnique(n - 1, d, q, r - 1);
    }
  }

  /** A remainder is its own remainder. */
  lemma ModIdempotent(n: int, d: int)
    requires d > 0
    ensures (n % d) % d == n % d
  {
    DivModUnique(n % d, d, 0, n % d);
  }

  /** If m copies of s fit in a, the quotient a / s is at least m. */
  lemma QuotientAtLeast(a: int, s: int, m: int)
    requires s > 0 && m >= 0 && a >= m * s
    ensures a / s >= m
  {
    var q, r := a / s, a % s;
    if q < m {
      assert (m - q) * s == m * s - q * s;
      MulAtLeast(m - q, s);
      assert false;
    }
  }

  /** Division by a positive divisor never decreases as the dividend grows. */
  lemma DivMonotone(a: int, b: int, d: int)
    requires d > 0 && a <= b
    ensures a / d <= b / d
  {
    if a / d > b / d {
      assert (a / d - b / d) * d == a / d * d - b / d * d;
      MulAtLeast(a / d - b / d, d);
      assert false;
    }
  }

  /** Two different numbers with the same remainder have different quotients. */
  lemma SameRemainderApart(a: int, b: int, d: int)
    requires d > 0 && a < b && a % d == b % d
    ensures a / d < b / d
  {
  }

  /** The rounded-up quotient of n + 1 items grows by one exactly when item n starts a new block. */
  lemma CeilStep(n: nat, s: int)
    requires s > 0
    ensures (n + 1 + s - 1) / s == (n + s - 1) / s + (if n % s == 0 then 1 else 0)
  {
    DivStep(n + s, s);
    DivModUnique(n + s, s, n / s + 1, n % s);
  }

  /** The rounded-up quotient of q * s + 1 items is q + 1: block q starts at q * s. */
  lemma CeilOfMultiple(q: nat, s: int)
    requires s > 0
    ensures (q * s + s - 1) / s == q
  {
    DivModUnique(q * s + s - 1, s, q, s - 1);
  }
}
