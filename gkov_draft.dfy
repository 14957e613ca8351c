/** The first draft of the estimator in library.cpp: the object with its rank
    policy, the coordinate-major data preparation of module GkovEarly, and a
    dimension check of which only the X test is modelled. */
module GkovDraft {
  import opened Wrappers
  import opened Matrices
  import Gkov
  import GkovEarly

  /** `check_dimensions`: throws when X is empty and otherwise returns true.
      It accepts every size pair that Gkov.CheckDimensions accepts, and more:
      a Y whose row count differs from the size of X passes. */
  function CheckDimensions(sizeOfX: int, sizeOfY: (int, int)): (r: Result<bool>)
    ensures r.Ok? <==> sizeOfX > 0
    ensures r.Ok? ==> r.value
    ensures r.Err? ==> r.error == InvalidArgument(Gkov.X_NOT_POSITIVE)
    ensures Gkov.CheckDimensions(sizeOfX, sizeOfY).Pass? ==> r.Ok?
    ensures r.Err? ==> Gkov.CheckDimensions(sizeOfX, sizeOfY) == Fail(r.error)
  {
    if sizeOfX <= 0 then Err(InvalidArgument(Gkov.X_NOT_POSITIVE)) else Ok(true)
  }

  /** `prepare_data`: the dimension check, then column 0 is X and column
      i+1 is coordinate row Y[i], for every i below sizeOfY.1. */
  method PrepareData(X: seq<real>, Y: seq<seq<real>>, sizeOfX: int, sizeOfY: (int, int)) returns (r: Result<Matrix>)
    requires GkovEarly.ColumnBuffers(X, Y, sizeOfX, sizeOfY) && sizeOfY.1 >= 0
    ensures r.Ok? <==> sizeOfX > 0
    ensures r.Err? ==> r.error == InvalidArgument(Gkov.X_NOT_POSITIVE)
    ensures r.Ok? ==> r.value == GkovEarly.ColumnMajorPoints(X, Y, sizeOfX, sizeOfY.1)
  {
    var check := CheckDimensions(sizeOfX, sizeOfY);
    if check.Err? {
      return Err(check.error);
    }
    var m := GkovEarly.AssembleColumnMajor(X, Y, sizeOfX, sizeOfY.1);
    return Ok(m);
  }

  /** The draft estimator object: only the rank policy and data preparation. */
  class GkovEstimator {
    const tnCallback: int -> real

    /** Stores the callback; t_n then returns the callback's value unchanged. */
    constructor (callback: int -> real)
      ensures tnCallback == callback
      ensures forall n :: TN(n) == callback(n)
    {
      tnCallback := callback;
    }

    /** `t_n(n)`: delegates to the stored callback. */
    function TN(n: int): real
    {
      tnCallback(n)
    }
  }
}
