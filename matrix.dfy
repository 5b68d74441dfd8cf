/**
 * The run-time matrix interface of `Matrix.hpp`: an in-memory column-major
 * matrix whose extractor hands out the observations one after another.
 * A pointer into the data is modelled as an offset into `data`.
 */
module Matrix {

  /** Consecutive access to the observations of a `SimpleMatrix`. */
  class SimpleMatrixExtractor {
    const data: seq<real>
    const dim: nat
    var at: nat

    constructor (data: seq<real>, dim: nat)
      ensures this.data == data && this.dim == dim && at == 0
    {
      this.data := data;
      this.dim := dim;
      at := 0;
    }

    /** Offset of the next observation; each call moves on by one observation. */
    method Next() returns (offset: nat)
      modifies this`at
      ensures offset == old(at) * dim && at == old(at) + 1
    {
      offset := at * dim;
      at := at + 1;
    }
  }

  /** An in-memory matrix: `numDim` values per observation, observations stored one after another. */
  class SimpleMatrix {
    const numDim: nat
    const numObs: nat
    const data: seq<real>

    constructor (numDimensions: nat, numObservations: nat, data: seq<real>)
      ensures numDim == numDimensions && numObs == numObservations && this.data == data
    {
      numDim := numDimensions;
      numObs := numObservations;
      this.data := data;
    }

    function NumObservations(): (r: nat)
      ensures r == numObs
    {
      numObs
    }

    function NumDimensions(): (r: nat)
      ensures r == numDim
    {
      numDim
    }

    /** A fresh extractor over the same data, positioned at the first observation. */
    method NewKnownExtractor() returns (e: SimpleMatrixExtractor)
      ensures fresh(e) && e.data == data && e.dim == numDim && e.at == 0
    {
      e := new SimpleMatrixExtractor(data, numDim);
    }
  }
}
