# pandas-primes: the primality core in Dafny

This project models the algorithmic core of the `arrow_prime` extension of
pandas-primes (`src/lib.rs`). It has three parts.

- `is_prime_scalar` is a 6k±1 trial-division primality test over `u64`.
- The loop inside `is_prime` maps a nullable `u64` column to a boolean mask.
  The mask has one entry per slot and no nulls.
- The loop inside `are_all_primes` checks a nullable `u64` column. It skips
  nulls and stops at the first present value that fails the test.

Files:

- `divisibility.dfy` (module `Divisibility`) holds the reference mathematics:
  divisibility, primality, squares, and Euclid's lemma. It models no code.
- `primality.dfy` (module `Primality`) models `is_prime_scalar`.
  - `u64` is a newtype, so every arithmetic step of the loop is checked
    against overflow.
  - `FindTrialDivisor` is the stepped loop.
  - `IsPrimeScalar` is the whole test, as written.
  - `IsPrimeScalarInclusive` is the corrected test (see "## Findings").
- `column.dfy` (module `ColumnEvaluator`) models the two column loops.
  - A column is a `seq<Option<u64>>`; a mask is a `seq<bool>`.
  - `IsPrimeMask` builds the mask by appending one entry per slot.
  - `AreAllPrimes` returns early at the first failing present value.

The scalar test is specified exactly. `IsPrimeScalar(n)` returns true iff `n`
is prime or `n` "escapes trial division" (`EscapesTrialDivision`).
`EscapesIffPrimeSquare` proves that the escaping numbers are exactly the
squares `p * p` of the primes `p` with `p % 6 == 5`: 25, 121, 289, 529, ...
The doc comment at `src/lib.rs:77-78` says the function returns true for
primes and false for everything else. The code does not do this: it returns
true for 25. The model follows the code, and the discrepancy is logged under
"## Findings".

The square-root bound is a modelling assumption. The source computes it as
`(n as f64).powf(0.5).ceil()`. The model uses the integer ceiling square root
`CeilSqrt(n)`, the least `r` with `n <= r * r`. The two agree whenever the
floating-point square root is exact.

Both column operations are deterministic: each method's postcondition fixes
its result as a function of the input. Repeated calls therefore agree.

## Model

| member | source | states |
|---|---|---|
| `Primality.CeilSqrt` | src/lib.rs:84 | The bound `limit` is the least `r` with `n <= r * r`: `r * r` reaches `n`, and `(r - 1) * (r - 1)` stays below it. |
| `Primality.CeilSqrtLeast` | src/lib.rs:84 | No root bound below `CeilSqrt(n)` exists: any `s` with `n <= s * s` is at least `CeilSqrt(n)`. |
| `Primality.CeilSqrtOfSquare` | src/lib.rs:84 | On a perfect square `p * p` the bound is exactly `p`. |
| `Primality.CeilSqrtOfU64` | src/lib.rs:84-86 | For any 64-bit `n` the bound is at most 2^32. So `i + 2` and the step `i + 6` never overflow `u64`. |
| `Primality.FindTrialDivisor` | src/lib.rs:85-89 | The stepped loop over `i = 5, 11, 17, ...` below `bound` returns true iff some step has `i` or `i + 2` dividing `n`. |
| `Primality.IsPrimeScalar` | src/lib.rs:79-91 | 0 and 1 give false. 2 and 3 give true. Beyond 3, multiples of 2 or 3 give false. In general the result is true iff `n` is prime or `n` escapes trial division. |
| `Primality.SmallFactorRejected` | src/lib.rs:82 | Beyond 3, a multiple of 2 or 3 is not prime, so the early `false` is justified. |
| `Primality.MultipleOfTwoOrThreeFails` | src/lib.rs:82 | Beyond 3, a multiple of 2 or 3 never passes the test. |
| `Primality.StepHitIsProperDivisor` | src/lib.rs:86-87 | Every number a step tests (`i` or `i + 2`, with `5 <= i` and `i` below the bound) lies strictly between 1 and `n`. So a hit proves `n` composite. |
| `Primality.NoHitNoSmallDivisor` | src/lib.rs:82-89 | If `n` is prime to 6 and no step below `bound` hits, then no number between 1 and `bound` divides `n`. |
| `Primality.LoneFactorIsRoot` | src/lib.rs:84-89 | Suppose nothing below `k` divides `n` and `n <= k * k`. Then any proper divisor of `n` equals `k`, and `n == k * k`. |
| `Primality.HitRulesOutEscape` | src/lib.rs:85-87 | A step that hits below `CeilSqrt(n)` shows that `n` does not escape. |
| `Primality.MissedCompositeEscapes` | src/lib.rs:84-90 | A composite, prime to 6, that no step hits is an escaping square. |
| `Primality.TrialDivisionVerdict` | src/lib.rs:84-90 | For `n > 3` prime to 6, the loop bounded by `CeilSqrt(n)` finds a divisor iff `n` neither is prime nor escapes. |
| `Primality.EscapeFacts` | src/lib.rs:80-82 | An escaping number is composite, at least 25, and divisible by neither 2 nor 3. So the early returns never meet one. |
| `Primality.EscapesIffPrimeSquare` | src/lib.rs:84-89 | `n` escapes iff `n == p * p` for a prime `p` with `p % 6 == 5`. Both directions are proved. |
| `Primality.PassesScalarTestSoundness` | src/lib.rs:77-91 | No prime is rejected. Every rejection has `n < 2` or a divisor strictly between 1 and `n`. Every composite that is not such a prime square is rejected. |
| `Primality.SquaresOfFiveAndElevenPass` | src/lib.rs:77-78 | 25 and 121 are composite, yet the test accepts them, contrary to the doc comment. |
| `Primality.SquareOfSevenFails` | src/lib.rs:85-86 | 49 is rejected, because 7 is tested as `i + 2` with `i == 5`. |
| `Primality.SampleScalars` | src/lib.rs:79-91 | 2, 3, 5, 7, 11, 13, 17, 19, 23 and 97 pass. 0, 1, 4, 6, 8, 9, 10, 49 and 100 fail. |
| `Primality.IsPrimeScalarInclusive` | src/lib.rs:79-91 | The corrected test with the range `5..=limit` returns true exactly for the primes. |
| `Primality.InclusiveTrialDivisionVerdict` | src/lib.rs:84-90 | With the inclusive bound `CeilSqrt(n) + 1`, the loop finds a divisor iff `n` is composite (for `n > 3` prime to 6). |
| `ColumnEvaluator.Mask` | src/lib.rs:103-111 | The mask has the length of the column. Entry `k` is the test's verdict on a present value, and `false` for a null. |
| `ColumnEvaluator.IsPrimeMask` | src/lib.rs:103-111 | The method returns one boolean per slot, in input order, with no nulls. A present value gets `is_prime_scalar` of that value; a null gets `false`. The result equals `Mask(column)`. |
| `ColumnEvaluator.AreAllPrimes` | src/lib.rs:128-135 | Returns true iff every present value passes the test. Nulls are skipped; empty and all-null columns give true. On false, the loop has read exactly up to the first present value that fails, and every earlier present value passed. |
| `ColumnEvaluator.AllPrimesFromMask` | src/lib.rs:119-123 | `are_all_primes` is true iff every mask entry is true or its slot is null. |
| `ColumnEvaluator.AllPrimesIsMaskConjunction` | src/lib.rs:119-123 | On a column without nulls, `are_all_primes` is the conjunction of the mask. |
| `ColumnEvaluator.NullAsymmetry` | src/lib.rs:106-110 | On the column `[None]`, the mask is `[false]` but `are_all_primes` is true (the general form is `AllPrimesFromMask`). |
| `ColumnEvaluator.MaskIsPrimalityAwayFromEscapes` | src/lib.rs:93-96 | When no present value is the square of a prime `p % 6 == 5`, mask entry `k` is true iff slot `k` holds a prime. |
| `ColumnEvaluator.SampleColumns` | src/lib.rs:103-135 | The empty column gives the empty mask and true. `[4, null, 7]` gives `[false, false, true]`. `[4, 7]` is not all primes. `[null, null]` is all primes. |
| `ColumnEvaluator.SampleEarlyExit` | src/lib.rs:128-133 | Checking `[4, 7]` gives false, and the loop stops after its first slot. |

## Findings

| source | as written | input that shows it | evidently intended | confidence | as-written member | corrected member |
|---|---|---|---|---|---|---|
| src/lib.rs:84-85 | The loop range stops before `limit = ceil(sqrt(n))`, so `limit` itself is never tested as `i`. | `n = 25`: `limit = 5` and the range is empty. Also `n = 121`, and every `p * p` with `p` prime and `p % 6 == 5`. | The doc comment at src/lib.rs:77-78 says only primes give true, so the range should include `limit` (`5..=limit`). | high; not executed | `Primality.SquaresOfFiveAndElevenPass` | `Primality.IsPrimeScalarInclusive` |

The as-written test is `Primality.IsPrimeScalar`. `EscapesIffPrimeSquare`
proves that it accepts exactly the primes and these squares. The corrected
test `IsPrimeScalarInclusive` shares the loop `FindTrialDivisor`, with a
bound one higher. `InclusiveTrialDivisionVerdict` proves that it accepts
exactly the primes. Its bound is at most 2^32 + 1, so it cannot overflow
either.

The column loops call `IsPrimeScalar`, as `is_prime` and `are_all_primes`
do. Their contracts are stated through `PassesScalarTest`. With the corrected
test, that predicate is plain `IsPrime`, as `MaskIsPrimalityAwayFromEscapes`
shows on the columns where the two tests agree.

## Left out

- Moving columns in and out of PyArrow (`pyarrow_to_arrow2` and `arrow2_to_pyarrow`, src/lib.rs:31-70) is left out. This covers the C data interface FFI, the `unwrap()` panics, and the "array type must be uint64" panic. The model starts from a `seq<Option<u64>>` supplied by the caller.
- The `#[pyfunction]` and `#[pymodule]` wrappers and the module registration (src/lib.rs:101-102, 127, 138-143) are host-runtime glue. They are left out, along with the `PyResult` errors they can raise.
- `pandas_prime/__init__.py` is left out. It is a pandas accessor that forwards the first chunk of a Series to the extension and wraps the result.
- `Primality.CeilSqrt`: models the floating-point bound `(n as f64).powf(0.5).ceil() as u64` as the exact integer ceiling square root. `f64` cannot represent every `u64` above 2^53, and `powf` need not be correctly rounded. So the model may differ from the compiled code for very large `n`. The finding uses 25 and 121, whose square roots are exact in `f64`.
- `ColumnEvaluator.IsPrimeMask`: the `MutableBitmap` bit packing, its capacity pre-allocation, and the `BooleanArray` wrapping are left out. The mask is a `seq<bool>` appended slot by slot. The absence of a validity bitmap is modelled by the element type `bool`.
- `ColumnEvaluator.AreAllPrimes`: the early exit is visible only through the ghost result `examined`, the number of slots read. The Rust function returns only the boolean.
- Allocation failure while building the mask is not modelled.
