/**
 * The scalar primality test `is_prime_scalar` of src/lib.rs: 6k±1 trial
 * division over unsigned 64-bit integers.
 *
 * The test is specified exactly, as written: it accepts every prime and, besides
 * the primes, exactly the squares p * p of the primes p with p % 6 == 5 (25, 121,
 * 289, ...), because its loop range `5..limit` stops short of `limit`.
 * `IsPrimeScalarInclusive` is the same test with the range `5..=limit`, and it
 * accepts exactly the primes.
 */
module Primality {
  import opened Divisibility

  /** Rust's `u64`. */
  newtype u64 = x: int | 0 <= x < 0x1_0000_0000_0000_0000

  // ---------------------------------------------------------------------------
  // The bound of the trial division: an integer ceiling square root
  // ---------------------------------------------------------------------------

  /** Binary search for the ceiling square root of `n` in `[lo, hi]`. */
  function CeilSqrtBetween(n: nat, lo: nat, hi: nat): (r: nat)
    requires lo <= hi && n <= hi * hi
    requires lo == 0 || (lo - 1) * (lo - 1) < n
    ensures lo <= r <= hi
    ensures n <= r * r && (r == 0 || (r - 1) * (r - 1) < n)
    decreases hi - lo
  {
    if lo == hi then lo
    else
      var mid := (lo + hi) / 2;
      if n <= mid * mid then CeilSqrtBetween(n, lo, mid)
      else CeilSqrtBetween(n, mid + 1, hi)
  }

  /**
   * The least `r` with `n <= r * r`: what `(n as f64).powf(0.5).ceil()`
   * computes when the floating-point square root is exact.
   */
  function CeilSqrt(n: nat): (r: nat)
    ensures n <= r * r && (r == 0 || (r - 1) * (r - 1) < n)
  {
    if n == 0 then 0
    else
      MulAwayFromZero(n, n);
      CeilSqrtBetween(n, 0, n)
  }

  /** `CeilSqrt(n)` is the least root bound: no smaller `s` has `n <= s * s`. */
  lemma CeilSqrtLeast(n: nat, s: nat)
    requires n <= s * s
    ensures CeilSqrt(n) <= s
  {
    var r := CeilSqrt(n);
    if r > 0 {
      SquaresOrdered(s, r - 1);
    }
  }

  lemma CeilSqrtOfSquare(p: nat)
    ensures CeilSqrt(p * p) == p
  {
    var r := CeilSqrt(p * p);
    CeilSqrtLeast(p * p, p);
    SquaresOrdered(r, p);
  }

  /** The bound of a 64-bit input fits in 32 bits, so `i + 2` and `i + 6` cannot overflow. */
  lemma CeilSqrtOfU64(n: nat)
    requires n < 0x1_0000_0000_0000_0000
    ensures CeilSqrt(n) <= 0x1_0000_0000
  {
    CeilSqrtLeast(n, 0x1_0000_0000);
  }

  // ---------------------------------------------------------------------------
  // What the loop examines, and what the test accepts
  // ---------------------------------------------------------------------------

  /** The step at `i` of the loop rejects `n`: `i` or `i + 2` divides it. */
  predicate StepHits(n: nat, i: nat) {
    Divides(i, n) || Divides(i + 2, n)
  }

  /** Some step `i = 5, 11, 17, ...` below `bound` rejects `n`. */
  ghost predicate TrialDivisionFinds(n: nat, bound: nat) {
    exists i :: 5 <= i < bound && i % 6 == 5 && StepHits(n, i)
  }

  /**
   * The composites the test accepts: `n` is the square of its own bound `r`,
   * `r % 6 == 5` (so the loop stops at `i == r` without testing it), and no
   * number between 1 and `r` divides `n`.
   */
  ghost predicate EscapesTrialDivision(n: nat) {
    var r := CeilSqrt(n);
    r * r == n && r % 6 == 5 && NoDivisorBelow(n, r)
  }

  /** What `is_prime_scalar` returns for `n`. */
  ghost predicate PassesScalarTest(n: nat) {
    IsPrime(n) || EscapesTrialDivision(n)
  }

  // ---------------------------------------------------------------------------
  // The code
  // ---------------------------------------------------------------------------

  /**
   * The loop `for i in (5..bound).step_by(6)`, returning whether some step
   * found a divisor (the source then returns `false`).
   */
  method FindTrialDivisor(n: u64, bound: u64) returns (found: bool)
    requires bound as int <= 0x1_0000_0000 + 1
    ensures found <==> TrialDivisionFinds(n as nat, bound as nat)
  {
    var i: u64 := 5;
    while i < bound
      invariant 5 <= i && i % 6 == 5
      invariant !TrialDivisionFinds(n as nat, i as nat)
      decreases bound as int - i as int
    {
      if n % i == 0 || n % (i + 2) == 0 {
        assert StepHits(n as nat, i as nat);
        return true;
      }
      assert !StepHits(n as nat, i as nat);
      FindsStep(n as nat, i as nat);
      i := i + 6;
    }
    FindsMonotone(n as nat, bound as nat, i as nat);
    return false;
  }

  /** `is_prime_scalar`, with the floating-point bound replaced by `CeilSqrt`. */
  method IsPrimeScalar(n: u64) returns (b: bool)
    ensures n <= 1 ==> !b
    ensures n == 2 || n == 3 ==> b
    ensures 3 < n && (n % 2 == 0 || n % 3 == 0) ==> !b
    ensures b <==> IsPrime(n as nat) || EscapesTrialDivision(n as nat)
  {
    if EscapesTrialDivision(n as nat) {
      EscapeFacts(n as nat);
    }
    if n == 0 || n == 1 {
      return false;
    }
    if n == 2 || n == 3 {
      return true;
    }
    if n % 2 == 0 || n % 3 == 0 {
      SmallFactorRejected(n as nat);
      return false;
    }
    CeilSqrtOfU64(n as nat);
    var limit := CeilSqrt(n as nat) as u64;
    var found := FindTrialDivisor(n, limit);
    TrialDivisionVerdict(n as nat);
    return !found;
  }

  /** `is_prime_scalar` with the inclusive range `5..=limit`: exactly the primes pass. */
  method IsPrimeScalarInclusive(n: u64) returns (b: bool)
    ensures b <==> IsPrime(n as nat)
  {
    if n == 0 || n == 1 {
      return false;
    }
    if n == 2 || n == 3 {
      return true;
    }
    if n % 2 == 0 || n % 3 == 0 {
      SmallFactorRejected(n as nat);
      return false;
    }
    CeilSqrtOfU64(n as nat);
    var limit := CeilSqrt(n as nat) as u64;
    var found := FindTrialDivisor(n, limit + 1);
    InclusiveTrialDivisionVerdict(n as nat);
    return !found;
  }

  /** Two different steps of the loop are at least 6 apart. */
  lemma SameStepGap(i: int, j: int)
    requires i % 6 == 5 && j % 6 == 5 && i < j
    ensures i + 6 <= j
  {
  }

  /** Two steps of the loop that are less than 6 apart are the same step. */
  lemma SameStep(i: int, j: int)
    requires i % 6 == 5 && j % 6 == 5 && i <= j < i + 6
    ensures j == i
  {
  }

  /** One more step of the loop examines exactly one more `i`. */
  lemma FindsStep(n: nat, i: nat)
    requires i % 6 == 5
    ensures TrialDivisionFinds(n, i + 6) ==> TrialDivisionFinds(n, i) || StepHits(n, i)
  {
    if TrialDivisionFinds(n, i + 6) && !TrialDivisionFinds(n, i) {
      var j :| 5 <= j < i + 6 && j % 6 == 5 && StepHits(n, j);
      SameStep(i, j);
    }
  }

  /** A step below a bound is below every larger bound. */
  lemma FindsMonotone(n: nat, lower: nat, upper: nat)
    requires lower <= upper
    ensures TrialDivisionFinds(n, lower) ==> TrialDivisionFinds(n, upper)
  {
  }

  // ---------------------------------------------------------------------------
  // Why the loop decides what it decides
  // ---------------------------------------------------------------------------

  lemma SmallFactorRejected(n: nat)
    requires 3 < n && (n % 2 == 0 || n % 3 == 0)
    ensures !IsPrime(n)
  {
    if n % 2 == 0 {
      assert Divides(2, n);
    } else {
      assert Divides(3, n);
    }
  }

  /**
   * Every number a step below `CeilSqrt(n) + 1` tests, `i` or `i + 2`, lies
   * strictly between 1 and `n`: a hit proves `n` composite.
   */
  lemma StepHitIsProperDivisor(n: nat, bound: nat, i: nat)
    requires bound <= CeilSqrt(n) + 1 && 5 <= i < bound
    ensures 1 < i && i + 2 < n
    ensures StepHits(n, i) ==> !IsPrime(n)
  {
    var limit := CeilSqrt(n);
    MulMonotone(4, limit - 1, limit - 1, limit - 1);
    if StepHits(n, i) {
      if Divides(i, n) {
        assert 1 < i < n;
      } else {
        assert 1 < i + 2 < n;
      }
    }
  }

  /**
   * When no step below `bound` hits, no number between 1 and `bound` divides
   * `n`: the steps cover every candidate not already ruled out by 2 and 3.
   */
  lemma NoHitNoSmallDivisor(n: nat, bound: nat)
    requires !Divides(2, n) && !Divides(3, n) && !TrialDivisionFinds(n, bound)
    ensures NoDivisorBelow(n, bound)
  {
    forall d | 1 < d < bound
      ensures !Divides(d, n)
    {
      StepResidues(d);
      if d % 6 == 5 {
        assert !StepHits(n, d);
      } else if d % 6 == 1 {
        assert !StepHits(n, d - 2);
      } else {
        SharesTwoOrThree(n, d);
      }
    }
  }

  /** Where a candidate divisor sits among the steps `i = 5, 11, 17, ...`. */
  lemma StepResidues(d: nat)
    ensures d % 6 == 5 ==> 5 <= d
    ensures d % 6 == 1 && 1 < d ==> 5 <= d - 2 && (d - 2) % 6 == 5
  {
    var q := d / 6;
    assert d == 6 * q + d % 6;
    if d % 6 == 1 && 1 < d {
      assert 1 <= q;
      DivModUnique(d - 2, 6, q - 1, 5);
    }
  }

  /** A number that is neither 1 nor 5 modulo 6 is a multiple of 2 or of 3. */
  lemma TwoOrThreeResidue(d: nat)
    ensures d % 6 != 1 && d % 6 != 5 ==> d % 2 == 0 || d % 3 == 0
  {
    var q, r := d / 6, d % 6;
    assert d == 6 * q + r;
    if r == 0 || r == 2 || r == 4 {
      DivModUnique(d, 2, 3 * q + r / 2, 0);
    } else if r == 3 {
      DivModUnique(d, 3, 2 * q + 1, 0);
    }
  }

  /** A number prime to 6 has no divisor that is a multiple of 2 or of 3. */
  lemma SharesTwoOrThree(n: nat, d: nat)
    requires !Divides(2, n) && !Divides(3, n) && d % 6 != 1 && d % 6 != 5
    ensures !Divides(d, n)
  {
    TwoOrThreeResidue(d);
    var p: nat := if d % 2 == 0 then 2 else 3;
    assert Divides(p, d);
    SharesFactor(n, d, p);
  }

  /** A divisor of `d` that does not divide `n` keeps `d` from dividing `n`. */
  lemma SharesFactor(n: nat, d: nat, p: nat)
    requires Divides(p, d) && !Divides(p, n)
    ensures !Divides(d, n)
  {
    if Divides(d, n) {
      DividesTransitive(p, d, n);
    }
  }

  /**
   * A proper divisor `d` of `n` when nothing below `k` divides `n` and
   * `n <= k * k`: then `d` is `k` and `n` is its square.
   */
  lemma LoneFactorIsRoot(n: nat, k: nat, d: nat)
    requires NoDivisorBelow(n, k) && n <= k * k
    requires 1 < d < n && Divides(d, n)
    ensures d == k && n == k * k
  {
    var e := n / d;
    Cofactor(d, n);
    MulMonotone(2, d, e, e);
    assert 1 < e < n;
    assert k <= d && k <= e;
    MulMonotone(k, d, k, e);
    assert n == k * k;
    MulMonotone(k, k, k, e);
    assert (d - k) * e == d * e - k * e;
    MulAwayFromZero(e, d - k);
  }

  /** A hit below the bound rules out an escaping square. */
  lemma HitRulesOutEscape(n: nat, i: nat)
    requires 5 <= i < CeilSqrt(n) && i % 6 == 5 && StepHits(n, i)
    ensures !EscapesTrialDivision(n)
  {
    var limit := CeilSqrt(n);
    var d := if Divides(i, n) then i else i + 2;
    assert 1 < d && Divides(d, n);
    if limit % 6 == 5 {
      SameStepGap(i, limit);
    }
  }

  /** A composite that no step below the bound hits is an escaping square. */
  lemma MissedCompositeEscapes(n: nat)
    requires !Divides(2, n) && !Divides(3, n) && 3 < n && !IsPrime(n)
    requires !TrialDivisionFinds(n, CeilSqrt(n))
    ensures EscapesTrialDivision(n)
  {
    var limit := CeilSqrt(n);
    NoHitNoSmallDivisor(n, limit);
    var d :| 1 < d < n && Divides(d, n);
    LoneFactorIsRoot(n, limit, d);
    SharesTwoOrThreeResidue(n, limit);
    NoHitRootResidue(n, limit);
  }

  /**
   * A divisor `r` of `n` that is 1 modulo 6 is hit as `i + 2` by the step
   * `i = r - 2`; so a bound `r` that no step below hits is 5 modulo 6.
   */
  lemma NoHitRootResidue(n: nat, r: nat)
    requires 1 < r && Divides(r, n) && (r % 6 == 1 || r % 6 == 5)
    requires !TrialDivisionFinds(n, r)
    ensures r % 6 == 5
  {
    var i: nat := r - 2;
    assert StepHits(n, i);
    assert !(5 <= i < r && i % 6 == 5 && StepHits(n, i));
  }

  /** A divisor of a number prime to 6 is itself 1 or 5 modulo 6. */
  lemma SharesTwoOrThreeResidue(n: nat, d: nat)
    requires !Divides(2, n) && !Divides(3, n) && Divides(d, n)
    ensures d % 6 == 1 || d % 6 == 5
  {
    if d % 6 != 1 && d % 6 != 5 {
      SharesTwoOrThree(n, d);
    }
  }

  /** The loop of the source decides exactly "prime, or an escaping square". */
  lemma TrialDivisionVerdict(n: nat)
    requires 3 < n && !Divides(2, n) && !Divides(3, n)
    ensures TrialDivisionFinds(n, CeilSqrt(n)) <==> !PassesScalarTest(n)
  {
    var limit := CeilSqrt(n);
    if TrialDivisionFinds(n, limit) {
      var i :| 5 <= i < limit && i % 6 == 5 && StepHits(n, i);
      StepHitIsProperDivisor(n, limit, i);
      HitRulesOutEscape(n, i);
    } else if !IsPrime(n) {
      MissedCompositeEscapes(n);
    }
  }

  /** With the inclusive range the loop decides exactly "composite". */
  lemma InclusiveTrialDivisionVerdict(n: nat)
    requires 3 < n && !Divides(2, n) && !Divides(3, n)
    ensures TrialDivisionFinds(n, CeilSqrt(n) + 1) <==> !IsPrime(n)
  {
    var limit := CeilSqrt(n);
    SquaresOrdered(limit, limit + 1);
    if TrialDivisionFinds(n, limit + 1) {
      var i :| 5 <= i < limit + 1 && i % 6 == 5 && StepHits(n, i);
      StepHitIsProperDivisor(n, limit + 1, i);
    } else {
      NoHitNoSmallDivisor(n, limit + 1);
      if !IsPrime(n) {
        var d :| 1 < d < n && Divides(d, n);
        LoneFactorIsRoot(n, limit + 1, d);
      }
    }
  }

  // ---------------------------------------------------------------------------
  // The accepted composites
  // ---------------------------------------------------------------------------

  /** An escaping number is composite, at least 25, and divisible by neither 2 nor 3. */
  lemma EscapeFacts(n: nat)
    requires EscapesTrialDivision(n)
    ensures 25 <= n && !Divides(2, n) && !Divides(3, n) && !IsPrime(n)
  {
    var r := CeilSqrt(n);
    SquaresOrdered(5, r);
    MultipleDivides(r, r);
    assert 1 < r < n && Divides(r, n);
  }

  /** The escaping numbers are exactly the squares of the primes `p` with `p % 6 == 5`. */
  lemma EscapesIffPrimeSquare(n: nat)
    ensures EscapesTrialDivision(n) <==> exists p: nat :: IsPrime(p) && p % 6 == 5 && n == p * p
  {
    if EscapesTrialDivision(n) {
      var r := CeilSqrt(n);
      EscapeFacts(n);
      forall d | 1 < d < r
        ensures !Divides(d, r)
      {
        if Divides(d, r) {
          MultipleDivides(r, r);
          DividesTransitive(d, r, n);
        }
      }
      assert IsPrime(r);
    }
    if exists p: nat :: IsPrime(p) && p % 6 == 5 && n == p * p {
      var p: nat :| IsPrime(p) && p % 6 == 5 && n == p * p;
      CeilSqrtOfSquare(p);
      PrimeSquareNoSmallDivisor(p);
    }
  }

  /**
   * Apart from the escaping squares, every composite is rejected; and every
   * rejection is justified by a proper divisor.
   */
  lemma PassesScalarTestSoundness(n: nat)
    ensures IsPrime(n) ==> PassesScalarTest(n)
    ensures !PassesScalarTest(n) ==> n < 2 || exists d :: 1 < d < n && Divides(d, n)
    ensures !IsPrime(n) && !(exists p: nat :: IsPrime(p) && p % 6 == 5 && n == p * p) ==> !PassesScalarTest(n)
  {
    EscapesIffPrimeSquare(n);
  }

  // ---------------------------------------------------------------------------
  // Sample values
  // ---------------------------------------------------------------------------

  /** 25 = 5 * 5 and 121 = 11 * 11 are composite, yet the test accepts them. */
  lemma SquaresOfFiveAndElevenPass()
    ensures !IsPrime(25) && PassesScalarTest(25)
    ensures !IsPrime(121) && PassesScalarTest(121)
  {
    assert Divides(5, 25) && Divides(11, 121);
    assert IsPrime(5);
    assert IsPrime(11);
    EscapesIffPrimeSquare(25);
    assert IsPrime(5) && 5 % 6 == 5 && 25 == 5 * 5;
    EscapesIffPrimeSquare(121);
    assert IsPrime(11) && 11 % 6 == 5 && 121 == 11 * 11;
  }

  /** 49 = 7 * 7 is rejected: 7 % 6 == 1, so the loop tests 7 as `i + 2` with `i == 5`. */
  lemma SquareOfSevenFails()
    ensures !PassesScalarTest(49)
  {
    assert Divides(7, 49);
    CeilSqrtOfSquare(7);
  }

  /** Small sample values: the primes pass, the other numbers fail, 25 excepted. */
  lemma SampleScalars()
    ensures forall n :: n in {2, 3, 5, 7, 11, 13, 17, 19, 23, 97} ==> PassesScalarTest(n)
    ensures forall n :: n in {0, 1, 4, 6, 8, 9, 10, 49, 100} ==> !PassesScalarTest(n)
  {
    assert IsPrime(2) && IsPrime(3) && IsPrime(5) && IsPrime(7) && IsPrime(11);
    assert IsPrime(13) && IsPrime(17) && IsPrime(19) && IsPrime(23);
    assert IsPrime(97);
    forall n | n in {0, 1, 4, 6, 8, 9, 10, 49, 100}
      ensures !PassesScalarTest(n)
    {
      if n < 2 {
        assert !IsPrime(n);
        if EscapesTrialDivision(n) {
          EscapeFacts(n);
        }
      } else if n == 49 {
        SquareOfSevenFails();
      } else {
        MultipleOfTwoOrThreeFails(n);
      }
    }
  }

  /** Beyond 3, a multiple of 2 or of 3 never passes. */
  lemma MultipleOfTwoOrThreeFails(n: nat)
    requires 3 < n && (n % 2 == 0 || n % 3 == 0)
    ensures !PassesScalarTest(n)
  {
    SmallFactorRejected(n);
    if EscapesTrialDivision(n) {
      EscapeFacts(n);
    }
  }
}
