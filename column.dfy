/**
 * The column loops of src/lib.rs: `is_prime`, which turns a nullable `u64`
 * column into a boolean mask with no nulls, and `are_all_primes`, which stops
 * at the first present value that fails the scalar test. The Arrow arrays on
 * either side are plain sequences here: a column is a `seq<Option<u64>>`, a
 * mask a `seq<bool>`.
 */
module ColumnEvaluator {
  import opened Divisibility
  import opened Primality

  /** One slot of a nullable column: a value, or a null. */
  datatype Option<T> = None | Some(value: T)

  /** A nullable `u64` column, in its order. */
  type Column = seq<Option<u64>>

  /** The mask entry of one slot: the scalar verdict of a value, `false` for a null. */
  ghost predicate SlotInMask(slot: Option<u64>) {
    match slot
    case Some(v) => PassesScalarTest(v as nat)
    case None => false
  }

  /** The mask of a column, built slot by slot from the front as the bitmap is pushed. */
  ghost function Mask(column: Column): (m: seq<bool>)
    ensures |m| == |column|
    ensures forall k :: 0 <= k < |column| ==> m[k] == SlotInMask(column[k])
  {
    if column == [] then []
    else Mask(column[..|column| - 1]) + [SlotInMask(column[|column| - 1])]
  }

  /** Every present value of the column passes the scalar test; nulls do not matter. */
  ghost predicate AllPresentPass(column: Column) {
    forall k :: 0 <= k < |column| && column[k].Some? ==> PassesScalarTest(column[k].value as nat)
  }

  /** The loop of `is_prime`: one pushed bit per slot, in order. */
  method IsPrimeMask(column: Column) returns (mask: seq<bool>)
    ensures |mask| == |column|
    ensures forall k :: 0 <= k < |column| && column[k].Some? ==>
              (mask[k] <==> PassesScalarTest(column[k].value as nat))
    ensures forall k :: 0 <= k < |column| && column[k].None? ==> !mask[k]
    ensures mask == Mask(column)
  {
    mask := [];
    for k := 0 to |column|
      invariant mask == Mask(column[..k])
    {
      match column[k] {
        case Some(number) =>
          var isPrime := IsPrimeScalar(number);
          mask := mask + [isPrime];
        case None =>
          mask := mask + [false];
      }
      assert column[..k + 1][..k] == column[..k];
    }
    assert column[..|column|] == column;
  }

  /**
   * The loop of `are_all_primes`. The ghost result `examined` is the number of
   * slots the loop reads: on `false` it stops right after the first present
   * value that fails the test.
   */
  method AreAllPrimes(column: Column) returns (all: bool, ghost examined: nat)
    ensures all <==> AllPresentPass(column)
    ensures all ==> examined == |column|
    ensures !all ==> 0 < examined <= |column|
                     && column[examined - 1].Some?
                     && !PassesScalarTest(column[examined - 1].value as nat)
                     && AllPresentPass(column[..examined - 1])
  {
    for k := 0 to |column|
      invariant AllPresentPass(column[..k])
    {
      match column[k] {
        case Some(number) =>
          var isPrime := IsPrimeScalar(number);
          if !isPrime {
            return false, k + 1;
          }
        case None =>
      }
    }
    assert column[..|column|] == column;
    return true, |column|;
  }

  // ---------------------------------------------------------------------------
  // How the two operations relate
  // ---------------------------------------------------------------------------

  /**
   * `are_all_primes` is the conjunction of the mask over the present slots: a
   * null is `false` in the mask but is skipped by the check.
   */
  lemma AllPrimesFromMask(column: Column)
    ensures AllPresentPass(column) <==>
            forall k :: 0 <= k < |column| ==> Mask(column)[k] || column[k].None?
  {
  }

  /** On a column without nulls, `are_all_primes` is the conjunction of the whole mask. */
  lemma AllPrimesIsMaskConjunction(column: Column)
    requires forall k :: 0 <= k < |column| ==> column[k].Some?
    ensures AllPresentPass(column) <==> forall k :: 0 <= k < |column| ==> Mask(column)[k]
  {
    AllPrimesFromMask(column);
  }

  /** A null counts as "not prime" in the mask but is ignored by the check. */
  lemma NullAsymmetry()
    ensures Mask([None]) == [false]
    ensures AllPresentPass([None])
  {
  }

  /**
   * Away from the squares of the primes `p` with `p % 6 == 5`, the mask is the
   * exact primality of each present value.
   */
  lemma MaskIsPrimalityAwayFromEscapes(column: Column)
    requires forall k :: 0 <= k < |column| && column[k].Some? ==>
               !exists p: nat :: IsPrime(p) && p % 6 == 5 && column[k].value as nat == p * p
    ensures forall k :: 0 <= k < |column| ==>
              (Mask(column)[k] <==> column[k].Some? && IsPrime(column[k].value as nat))
  {
    forall k | 0 <= k < |column| && column[k].Some?
      ensures PassesScalarTest(column[k].value as nat) <==> IsPrime(column[k].value as nat)
    {
      EscapesIffPrimeSquare(column[k].value as nat);
    }
  }

  /**
   * Sample columns: the empty column, a column with a null, a column whose
   * first value fails, and an all-null column.
   */
  lemma SampleColumns()
    ensures Mask([]) == [] && AllPresentPass([])
    ensures Mask([Some(4), None, Some(7)]) == [false, false, true]
    ensures !AllPresentPass([Some(4), Some(7)])
    ensures AllPresentPass([None, None])
  {
    assert Divides(2, 4);
    CeilSqrtOfSquare(2);
    assert !PassesScalarTest(4);
    assert IsPrime(7);
    assert Mask([Some(4), None, Some(7)])[0] == SlotInMask(Some(4));
    var failing: Column := [Some(4), Some(7)];
    assert failing[0].Some? && !PassesScalarTest(failing[0].value as nat);
  }

  /** The check of `[4, 7]` fails at its first slot and never reads the 7. */
  method SampleEarlyExit() returns (all: bool)
    ensures !all
  {
    var column: Column := [Some(4), Some(7)];
    ghost var examined: nat;
    all, examined := AreAllPrimes(column);
    SampleColumns();
    assert examined == 1;
  }
}
