/**
 * The compile-time matrix interface of `MockMatrix.hpp` and its in-memory
 * implementation: the matrix itself is immutable, and the position of the
 * next observation lives in a separate workspace that each extraction
 * advances. A pointer into the data is modelled as an offset into `data`.
 */
module Mock {

  /** The extraction position of a `MockMatrix` or `SimpleMatrix`. */
  class Workspace {
    var at: nat

    constructor ()
      ensures at == 0
    {
      at := 0;
    }
  }

  /** The interface as documented: `numDim` values per observation, one observation after another. */
  class MockMatrix {
    const numDim: nat
    const numObs: nat
    const data: seq<real>
    /** The dimension widened once, so that offsets are computed in the wide type. */
    const longNumDim: nat := numDim

    constructor (numDim: nat, numObs: nat, data: seq<real>)
      ensures this.numDim == numDim && this.numObs == numObs && this.data == data
      ensures longNumDim == numDim
    {
      this.numDim := numDim;
      this.numObs := numObs;
      this.data := data;
    }

    function NumObservations(): (r: nat)
      ensures r == numObs
    {
      numObs
    }

    function NumDimensions(): (r: nat)
      ensures r == numDim
    {
      numDim
    }

    method CreateWorkspace() returns (w: Workspace)
      ensures fresh(w) && w.at == 0
    {
      w := new Workspace();
    }

    /** Offset of the workspace's current observation; the workspace moves on by one. */
    method GetObservation(w: Workspace) returns (offset: nat)
      modifies w
      ensures offset == old(w.at) * longNumDim && w.at == old(w.at) + 1
    {
      offset := w.at * longNumDim;
      w.at := w.at + 1;
    }
  }

  /** The in-memory matrix that builders receive by default. */
  class SimpleMatrix {
    const numDim: nat
    const numObs: nat
    const data: seq<real>
    const longNumDim: nat := numDim

    constructor (numDimensions: nat, numObservations: nat, data: seq<real>)
      ensures numDim == numDimensions && numObs == numObservations && this.data == data
      ensures longNumDim == numDimensions
    {
      numDim := numDimensions;
      numObs := numObservations;
      this.data := data;
    }

    function NumObservations(): (r: nat)
      ensures r == numObs
    {
      numObs
    }

    function NumDimensions(): (r: nat)
      ensures r == numDim
    {
      numDim
    }

    method CreateWorkspace() returns (w: Workspace)
      ensures fresh(w) && w.at == 0
    {
      w := new Workspace();
    }

    method GetObservation(w: Workspace) returns (offset: nat)
      modifies w
      ensures offset == old(w.at) * longNumDim && w.at == old(w.at) + 1
    {
      offset := w.at * longNumDim;
      w.at := w.at + 1;
    }
  }
}
