/** `np.allclose` on two spatial transforms, over exact reals. */
module Geometry {

  /** A spatial transform as rows of entries (a 4x4 affine for NIfTI volumes). */
  type Affine = seq<seq<real>>

  /** numpy's default relative tolerance `rtol`. */
  const RelTol: real := 0.00001
  /** numpy's default absolute tolerance `atol`. */
  const AbsTol: real := 0.00000001

  function Abs(x: real): real
  {
    if x < 0.0 then -x else x
  }

  /** Two entries are close when their difference is within the absolute tolerance plus the
      relative tolerance times the second entry's magnitude, so it grows with `b` only. */
  predicate Close(a: real, b: real)
  {
    Abs(a - b) <= AbsTol + RelTol * Abs(b)
  }

  predicate SameShape(a: Affine, b: Affine)
  {
    |a| == |b| && forall i :: 0 <= i < |a| ==> |a[i]| == |b[i]|
  }

  /** Two transforms of the same shape are close entry by entry. */
  predicate AllClose(a: Affine, b: Affine)
  {
    SameShape(a, b) && forall i, j :: 0 <= i < |a| && 0 <= j < |a[i]| ==> Close(a[i][j], b[i][j])
  }

  /** Any transform matches itself. */
  lemma AllCloseReflexive(a: Affine)
    ensures AllClose(a, a)
  {
  }

  /** Entry-wise differences within the absolute tolerance always match, whatever the magnitudes. */
  lemma WithinAbsTolMatches(a: Affine, b: Affine)
    requires SameShape(a, b)
    requires forall i, j :: 0 <= i < |a| && 0 <= j < |a[i]| ==> Abs(a[i][j] - b[i][j]) <= AbsTol
    ensures AllClose(a, b)
  {
  }

  /** Any entry further apart than the tolerance allowed by the second argument is a mismatch. */
  lemma OutsideToleranceMismatches(a: Affine, b: Affine, i: nat, j: nat)
    requires SameShape(a, b) && i < |a| && j < |a[i]|
    requires Abs(a[i][j] - b[i][j]) > AbsTol + RelTol * Abs(b[i][j])
    ensures !AllClose(a, b)
  {
  }

  /** The tolerance is relative: at an origin coordinate of 200 mm, entries 0.001 mm apart still
      match, although 0.001 is far above the absolute tolerance. */
  lemma MicrometreShiftAtLargeOriginMatches()
    ensures AllClose([[200.001]], [[200.0]])
    ensures Abs(200.001 - 200.0) > AbsTol
  {
    assert Close(200.001, 200.0);
  }

  /** A whole millimetre at 200 mm is beyond the tolerance there (about 0.002 mm). */
  lemma MillimetreShiftAtLargeOriginMismatches()
    ensures !AllClose([[201.0]], [[200.0]])
  {
    OutsideToleranceMismatches([[201.0]], [[200.0]], 0, 0);
  }

  /** The comparison is not symmetric: swapping image and mask can change the verdict. */
  lemma AllCloseNotSymmetric()
    ensures AllClose([[1.0]], [[1.000010010005]]) && !AllClose([[1.000010010005]], [[1.0]])
  {
    assert Close(1.0, 1.000010010005);
    OutsideToleranceMismatches([[1.000010010005]], [[1.0]], 0, 0);
  }
}
