/** Masking with a power of two, as the hash map uses it to wrap an index. */
module Bits {

  function Pow2(k: nat): (p: nat)
    ensures p >= 1
  {
    if k == 0 then 1 else 2 * Pow2(k - 1)
  }

  ghost predicate IsPow2(n: nat) {
    exists k: nat :: n == Pow2(k)
  }

  /** The `&` operator on non-negative integers, bit by bit. */
  function And(x: nat, y: nat): (r: nat)
  {
    if x == 0 || y == 0 then 0 else (if x % 2 == 1 && y % 2 == 1 then 1 else 0) + 2 * And(x / 2, y / 2)
  }

  lemma MulMonotonic(a: nat, b: nat, d: nat)
    requires a <= b
    ensures a * d <= b * d
  {
  }

  /** Quotient and remainder are determined by x == q * d + r with r below d. */
  lemma DivModUnique(x: nat, d: nat, q: nat, r: nat)
    requires r < d && x == q * d + r
    ensures x / d == q && x % d == r
  {
    var q' := x / d;
    assert (q + 1) * d == q * d + d && (q' + 1) * d == q' * d + d;
    if q < q' { MulMonotonic(q + 1, q', d); }
    if q' < q { MulMonotonic(q' + 1, q, d); }
  }

  lemma ModTwice(x: nat, p: nat)
    requires p > 0
    ensures x % (2 * p) == 2 * ((x / 2) % p) + x % 2
  {
    var a, b := (x / 2) / p, (x / 2) % p;
    assert x / 2 == a * p + b;
    assert a * (2 * p) == 2 * (a * p);
    DivModUnique(x, 2 * p, a, 2 * b + x % 2);
  }

  lemma AndLowBit(x: nat, p: nat)
    requires p > 0
    ensures And(x, 2 * p - 1) == x % 2 + 2 * And(x / 2, p - 1)
  {
  }

  lemma {:induction false} MaskIsModulo(x: nat, k: nat)
    ensures And(x, Pow2(k) - 1) == x % Pow2(k)
    decreases k
  {
    if k == 0 {
      assert x % 1 == 0;
    } else {
      AndLowBit(x, Pow2(k - 1));
      MaskIsModulo(x / 2, k - 1);
      ModTwice(x, Pow2(k - 1));
    }
  }

  /** `& (capacity - 1)` wraps modulo a power-of-two capacity. */
  lemma MaskWraps(x: nat, n: nat)
    requires n > 0 && IsPow2(n)
    ensures And(x, n - 1) == x % n
  {
    var k: nat :| n == Pow2(k);
    MaskIsModulo(x, k);
  }

  lemma Pow2Doubles(n: nat)
    requires IsPow2(n)
    ensures IsPow2(2 * n)
  {
    var k: nat :| n == Pow2(k);
    assert Pow2(k + 1) == 2 * n;
  }
}
