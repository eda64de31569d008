/**
 * Natural-number divisibility and primality: the mathematics that the
 * trial-division test is judged against. Nothing here models code of the
 * repository; it is the reference definition of "prime" and the facts about
 * divisors, squares and Euclid's lemma that the proofs about the test use.
 */
module Divisibility {

  /** `d` divides `n` (a zero divisor divides nothing). */
  predicate Divides(d: nat, n: nat) {
    d > 0 && n % d == 0
  }

  /** No `d` with `1 < d < k` divides `n`. */
  ghost predicate NoDivisorBelow(n: nat, k: nat) {
    forall d :: 1 < d < k ==> !Divides(d, n)
  }

  /** `n` is prime in the usual sense: at least 2 and without a proper divisor. */
  ghost predicate IsPrime(n: nat) {
    2 <= n && NoDivisorBelow(n, n)
  }

  // ---------------------------------------------------------------------------
  // Multiplication and division helpers
  // ---------------------------------------------------------------------------

  lemma MulAwayFromZero(b: int, x: int)
    requires b > 0
    ensures x >= 1 ==> b * x >= b
    ensures x <= -1 ==> b * x <= -b
  {
  }

  /** Euclidean division is unique: any quotient/remainder pair is the one Dafny computes. */
  lemma DivModUnique(a: int, b: int, q: int, r: int)
    requires b > 0 && 0 <= r < b && a == b * q + r
    ensures a % b == r && a / b == q
  {
    MulAwayFromZero(b, q - a / b);
  }

  lemma MultipleDivides(d: nat, k: nat)
    requires d > 0
    ensures Divides(d, d * k)
  {
    DivModUnique(d * k, d, k, 0);
  }

  /** A divisor of a positive number pairs with its cofactor `n / d`, which divides `n` too. */
  lemma Cofactor(d: nat, n: nat)
    requires Divides(d, n) && n > 0
    ensures n == d * (n / d) && n / d > 0 && Divides(n / d, n)
  {
    var e := n / d;
    assert n == d * e;
    MultipleDivides(e, d);
    assert e * d == n;
  }

  lemma DividesTransitive(a: nat, b: nat, c: nat)
    requires Divides(a, b) && Divides(b, c)
    ensures Divides(a, c)
  {
    var x := b / a;
    var y := c / b;
    assert b == a * x;
    assert c == b * y;
    assert c == a * (x * y);
    MultipleDivides(a, x * y);
  }

  /** A divisor of a positive number is at most that number. */
  lemma DivisorAtMost(d: nat, n: nat)
    requires Divides(d, n) && n > 0
    ensures d <= n
  {
    Cofactor(d, n);
    MulAwayFromZero(d, n / d);
  }

  lemma MulMonotone(a: nat, b: nat, c: nat, e: nat)
    requires a <= b && c <= e
    ensures a * c <= b * e
  {
    assert a * c <= b * c;
    assert b * c <= b * e;
  }

  /** Squaring preserves the order of naturals, strictly and not. */
  lemma SquaresOrdered(a: nat, b: nat)
    ensures a <= b ==> a * a <= b * b
    ensures a < b ==> a * a < b * b
  {
    if a <= b {
      MulMonotone(a, b, a, b);
    }
    if a < b {
      assert a * a <= a * b;
      assert a * b < b * b;
    }
  }

  // ---------------------------------------------------------------------------
  // Prime factors and Euclid's lemma
  // ---------------------------------------------------------------------------

  /** Every number from 2 on has a prime divisor. */
  lemma {:induction false} PrimeFactorExists(n: nat) returns (q: nat)
    requires 2 <= n
    ensures IsPrime(q) && Divides(q, n)
    decreases n
  {
    if IsPrime(n) {
      q := n;
      MultipleDivides(n, 1);
    } else {
      var d :| 1 < d < n && Divides(d, n);
      q := PrimeFactorExists(d);
      DividesTransitive(q, d, n);
    }
  }

  /** Euclid's lemma for a factor already reduced below the prime. */
  lemma {:induction false} PrimeDividesReducedProduct(q: nat, a: nat, b: nat)
    requires IsPrime(q) && 0 < a < q && Divides(q, a * b)
    ensures Divides(q, b)
    decreases a
  {
    if a == 1 {
      assert a * b == b;
    } else {
      var t := q / a;
      var u := q % a;
      assert q == a * t + u;
      assert !Divides(a, q);
      var m := (a * b) / q;
      assert a * b == q * m;
      calc {
        u * b;
        (q - a * t) * b;
        q * b - t * (a * b);
        q * b - t * (q * m);
        q * (b - t * m);
      }
      MulAwayFromZero(q, b - t * m);
      MultipleDivides(q, b - t * m);
      PrimeDividesReducedProduct(q, u, b);
    }
  }

  /** Euclid's lemma: a prime that divides a product divides one of its factors. */
  lemma PrimeDividesProduct(q: nat, a: nat, b: nat)
    requires IsPrime(q) && Divides(q, a * b)
    ensures Divides(q, a) || Divides(q, b)
  {
    var r := a % q;
    if r != 0 {
      var k := a / q;
      var m := (a * b) / q;
      assert a == q * k + r;
      assert a * b == q * m;
      calc {
        r * b;
        (a - q * k) * b;
        a * b - q * (k * b);
        q * (m - k * b);
      }
      MulAwayFromZero(q, m - k * b);
      MultipleDivides(q, m - k * b);
      PrimeDividesReducedProduct(q, r, b);
    }
  }

  /** A divisor above 1 of the square of a prime is at least that prime. */
  lemma PrimeSquareDivisorAtLeast(p: nat, d: nat)
    requires IsPrime(p) && 1 < d && Divides(d, p * p)
    ensures p <= d
  {
    var q := PrimeFactorExists(d);
    DividesTransitive(q, d, p * p);
    PrimeDividesProduct(q, p, p);
    DivisorAtMost(q, d);
  }

  /** The square of a prime has no divisor strictly between 1 and the prime. */
  lemma PrimeSquareNoSmallDivisor(p: nat)
    requires IsPrime(p)
    ensures NoDivisorBelow(p * p, p)
  {
    forall d | 1 < d < p
      ensures !Divides(d, p * p)
    {
      if Divides(d, p * p) {
        PrimeSquareDivisorAtLeast(p, d);
      }
    }
  }
}
