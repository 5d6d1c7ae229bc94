/**
 * Bitwise AND on the non-negative integers, as C's `&` computes it on the
 * values the bank-select expression combines (an `unsigned char` promoted
 * to `int`, and `CHR - 1` with `CHR > 0`), together with the two facts a
 * bank mask depends on: the result never exceeds the mask, and masking with
 * `2^k - 1` keeps exactly the value modulo `2^k`.
 */
module Bits {

  /** `a & b` for non-negative `a` and `b`, one binary digit at a time. */
  function BitAnd(a: nat, b: nat): (r: nat)
    ensures r <= a && r <= b
    decreases a
  {
    if a == 0 || b == 0 then 0
    else 2 * BitAnd(a / 2, b / 2) + (if a % 2 == 1 && b % 2 == 1 then 1 else 0)
  }

  /** `n` is 1, 2, 4, 8, ... */
  predicate IsPowerOfTwo(n: nat)
    decreases n
  {
    n == 1 || (n > 1 && n % 2 == 0 && IsPowerOfTwo(n / 2))
  }

  /** The only multiple of `n` strictly between `-n` and `n` is zero. */
  lemma ZeroMultiple(n: int, t: int)
    requires n > 0 && -n < n * t < n
    ensures t == 0
  {}

  /** Euclidean remainder is determined by any decomposition `d == n * k + r` with `0 <= r < n`. */
  lemma ModOfDecomposition(d: nat, n: nat, k: nat, r: nat)
    requires n > 0 && r < n && d == n * k + r
    ensures d % n == r
  {
    var q, s := d / n, d % n;
    assert n * (q - k) == r - s;
    ZeroMultiple(n, q - k);
  }

  /** Splitting off the lowest binary digit of `d` splits its remainder modulo `2 * h`. */
  lemma ModDoubled(d: nat, h: nat)
    requires h > 0
    ensures d % (2 * h) == 2 * ((d / 2) % h) + d % 2
  {
    var q, k, m := d / 2, (d / 2) / h, (d / 2) % h;
    assert q == h * k + m;
    assert d == (2 * h) * k + (2 * m + d % 2);
    ModOfDecomposition(d, 2 * h, k, 2 * m + d % 2);
  }

  /** Masking with `c - 1`, `c` a power of two, is reduction modulo `c`. */
  lemma {:induction false} LowMaskIsModulo(d: nat, c: nat)
    requires IsPowerOfTwo(c)
    ensures BitAnd(d, c - 1) == d % c
    decreases c
  {
    if c == 1 {
      assert BitAnd(d, 0) == 0;
    } else if d == 0 {
      assert BitAnd(0, c - 1) == 0;
    } else {
      var h := c / 2;
      assert c == 2 * h;
      assert (c - 1) / 2 == h - 1 && (c - 1) % 2 == 1;
      LowMaskIsModulo(d / 2, h);
      assert BitAnd(d, c - 1) == 2 * ((d / 2) % h) + d % 2;
      ModDoubled(d, h);
    }
  }
}
