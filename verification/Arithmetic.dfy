/** Facts about division used by the layout proofs. */
module Arithmetic {

  lemma Monotone(x: int, y: int, d: int)
    requires 0 < d && x <= y
    ensures x * d <= y * d
  {}

  lemma Small(x: int, d: int)
    requires 0 <= x < d
    ensures x % d == x && x / d == 0
  {}

  lemma Quotient(x: int, d: int, q: int, r: int)
    requires 0 < d && 0 <= r < d && x == q * d + r
    ensures x / d == q && x % d == r
  {
    var q' := x / d;
    if q' < q { Monotone(q' + 1, q, d); }
    if q < q' { Monotone(q + 1, q', d); }
  }

  /** Dividing in two stages, and the remainder of the whole as two digits. */
  lemma DivideTwice(v: nat, p: nat, q: nat)
    requires 0 < p && 0 < q
    ensures 0 < p * q && v / p / q == v / (p * q)
    ensures v % (p * q) == v / p % q * p + v % p
  {
    var t, d, r := v / p / q, v / p % q, v % p;
    assert v == (t * q + d) * p + r;
    assert (t * q + d) * p == t * (p * q) + d * p;
    assert 0 <= d * p <= (q - 1) * p;
    assert (q - 1) * p == p * q - p;
    Quotient(v, p * q, t, d * p + r);
  }

  /** Adding a multiple of the divisor shifts the quotient. */
  lemma AddMultiple(x: nat, k: nat, d: nat)
    requires 0 < d
    ensures (x + k * d) / d == x / d + k
    ensures (x + k * d) % d == x % d
  {
    assert x + k * d == (x / d + k) * d + x % d;
    Quotient(x + k * d, d, x / d + k, x % d);
  }

  lemma Regroup(x: nat, p: nat, q: nat, r: nat)
    ensures x * (p * (q * r)) == x * r * q * p
  {
    assert p * (q * r) == r * q * p by {
      assert q * r == r * q;
    }
    Associate(x, r * q, p);
    Associate(x, r, q);
  }

  lemma Associate(x: int, y: int, z: int)
    ensures x * (y * z) == x * y * z
  {}

  /** A digit is not affected by a multiple of a higher power. */
  lemma DigitBelow(x: nat, low: nat, p: nat, q: nat, r: nat)
    requires 0 < p && 0 < q
    ensures (x * (p * (q * r)) + low) / p % q == low / p % q
  {
    Regroup(x, p, q, r);
    AddMultiple(low, x * r * q, p);
    AddMultiple(low / p, x * r, q);
  }

  /** A digit of the remainder is the digit of the whole. */
  lemma DigitOfRemainder(v: nat, p: nat, q: nat, r: nat)
    requires 0 < p && 0 < q && 0 < p * (q * r)
    ensures v % (p * (q * r)) / p % q == v / p % q
  {
    var w := p * (q * r);
    assert v == v / w * w + v % w;
    DigitBelow(v / w, v % w, p, q, r);
  }

  lemma Distribute(x: int, y: int, z: int)
    ensures x * (y + z) == x * y + x * z
  {}

  lemma Spread(b: int, m: int, rest: int, n: int)
    requires n == m + 1 + rest
    ensures b * n == b * m + b + b * rest
  {
    assert b * (m + 1 + rest) == b * m + b + b * rest;
  }
}
