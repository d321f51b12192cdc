/** The integer tables a grid exposes (`links_at_patch`, `patches_at_link`, ...)
    and the writable output buffer `map_neighbors` fills. */
module Tables {

  /** The two integer dtypes an id table may carry, numpy's int32 and int64.
      The width is only a tag here: it must agree between `out` and the
      connector-per-element table. */
  datatype IntType = Int32 | Int64

  /** A read-only 2-D integer array of shape (|values|, cols). */
  datatype Table = Table(dtype: IntType, cols: nat, values: seq<seq<int>>) {

    function NumRows(): nat {
      |values|
    }

    /** Every row has `cols` entries, as every numpy 2-D array does. */
    predicate Rectangular() {
      forall i :: 0 <= i < |values| ==> |values[i]| == cols
    }
  }

  /** A grid, seen only through the adjacency tables it provides by name;
      a name that is not a key is an attribute the grid lacks. */
  type Grid = map<string, Table>

  predicate GridValid(grid: Grid) {
    forall name :: name in grid ==> grid[name].Rectangular()
  }

  /** A writable, C-contiguous integer ndarray: a width tag and a 2-D buffer. */
  class IdArray {
    const dtype: IntType
    const data: array2<int>

    /** `np.empty_like(like)`: same shape and width, contents unspecified. */
    constructor EmptyLike(like: Table)
      ensures dtype == like.dtype
      ensures data.Length0 == like.NumRows() && data.Length1 == like.cols
      ensures fresh(data)
    {
      dtype := like.dtype;
      data := new int[like.NumRows(), like.cols];
    }

    /** `out` has the dtype and the shape of `like`. */
    predicate Matches(like: Table) {
      dtype == like.dtype && data.Length0 == like.NumRows() && data.Length1 == like.cols
    }
  }
}
