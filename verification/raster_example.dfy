/** The worked example of `map_neighbors`: patch neighbours via links on a
    raster of 3 x 4 nodes, whose six patches are numbered

        o - o - o - o
        | 3 | 4 | 5 |
        o - o - o - o
        | 0 | 1 | 2 |
        o - o - o - o

    Links are numbered row by row from the bottom: the three horizontal
    links of a node row, then the four vertical links above it. */
module RasterExample {
  import opened Wrappers
  import opened Tables
  import opened ConnectorNeighbors
  import opened Neighbors

  /** `links_at_patch`: the east, north, west and south link of each patch. */
  const LinksAtPatch: Table := Table(Int64, 4, [
    [4, 7, 3, 0], [5, 8, 4, 1], [6, 9, 5, 2],
    [11, 14, 10, 7], [12, 15, 11, 8], [13, 16, 12, 9]])

  /** `patches_at_link`: the two patches beside each link, -1 on the boundary
      (above then below a horizontal link, east then west of a vertical one). */
  const PatchesAtLink: Table := Table(Int64, 2, [
    [0, -1], [1, -1], [2, -1],
    [0, -1], [1, 0], [2, 1], [-1, 2],
    [3, 0], [4, 1], [5, 2],
    [3, -1], [4, 3], [5, 4], [-1, 5],
    [-1, 3], [-1, 4], [-1, 5]])

  /** The answer the source documents for this grid. */
  const PatchNeighbors: seq<seq<int>> := [
    [1, 3, -1, -1], [2, 4, 0, -1], [-1, 5, 1, -1],
    [4, -1, -1, 0], [5, -1, 3, 1], [-1, -1, 4, 2]]

  /** The grid, seen through the two tables this mapping needs. */
  function RasterGrid(): Grid {
    map["patches_at_link" := PatchesAtLink, "links_at_patch" := LinksAtPatch]
  }

  lemma RasterRowsResolvable()
    ensures RowsResolvable(LinksAtPatch, PatchesAtLink, Arange(6))
  {
  }

  /** The neighbour rule gives the documented table, entry by entry. */
  lemma RasterPatchNeighbors(x: int, k: int)
    requires 0 <= x < 6 && 0 <= k < 4
    ensures RowResolvable(LinksAtPatch, PatchesAtLink, x)
    ensures Neighbor(LinksAtPatch, PatchesAtLink, x, k) == PatchNeighbors[x][k]
  {
  }

  /** The two example tables describe one topology: each link of a patch has
      that patch beside it, and each patch beside a link lists that link. */
  lemma RasterConsistent()
    ensures Consistent(LinksAtPatch, PatchesAtLink)
  {
    forall x, k | 0 <= x < 6 && 0 <= k < 4
      ensures 0 <= LinksAtPatch.values[x][k] < 17 && Joins(PatchesAtLink, LinksAtPatch.values[x][k], x)
    {
      assert x in [0, 1, 2, 3, 4, 5];
    }
    forall c, j | 0 <= c < 17 && 0 <= j < 2 && PatchesAtLink.values[c][j] != -1
      ensures 0 <= PatchesAtLink.values[c][j] < 6 && c in LinksAtPatch.values[PatchesAtLink.values[c][j]]
    {
      assert c in [0, 1, 2, 3, 4, 5, 6, 7, 8, 9, 10, 11, 12, 13, 14, 15, 16];
    }
  }

  /** On this grid, patch adjacency is symmetric. */
  lemma RasterSymmetric(x: int, k: int)
    requires 0 <= x < 6 && 0 <= k < 4 && PatchNeighbors[x][k] != -1
    ensures var y := PatchNeighbors[x][k];
      0 <= y < 6 && exists j :: 0 <= j < 4 && PatchNeighbors[y][j] == x
  {
    RasterConsistent();
    RasterPatchNeighbors(x, k);
    NeighborSymmetric(LinksAtPatch, PatchesAtLink, x, k);
    var y := PatchNeighbors[x][k];
    var j :| 0 <= j < 4 && Neighbor(LinksAtPatch, PatchesAtLink, y, j) == x;
    RasterPatchNeighbors(y, j);
  }

  /** `map_neighbors(grid, at="patch", connector="link")` on this grid succeeds
      and returns the documented table. */
  method RasterMapNeighbors() returns (r: Result<IdArray, Error>)
    ensures r.Success?
    ensures r.value.data.Length0 == 6 && r.value.data.Length1 == 4
    ensures forall x, k :: 0 <= x < 6 && 0 <= k < 4 ==> r.value.data[x, k] == PatchNeighbors[x][k]
  {
    var grid := RasterGrid();
    assert AttrName("patch", "link") == "patches_at_link";
    assert AttrName("link", "patch") == "links_at_patch";
    RasterRowsResolvable();
    r := MapNeighbors(grid, "patch", "link", None, None);
    forall x, k | 0 <= x < 6 && 0 <= k < 4
      ensures r.value.data[x, k] == PatchNeighbors[x][k]
    {
      MappedRowsAre(None, 6, x);
      RasterPatchNeighbors(x, k);
    }
  }

  /** An int32 `out` is rejected before `where` is used, even when `where`
      lists a row the grid does not have. */
  method RasterRejectsInt32Output() returns (r: Result<IdArray, Error>)
    ensures r == Failure(OutputMismatch)
  {
    var grid := RasterGrid();
    assert AttrName("patch", "link") == "patches_at_link";
    assert AttrName("link", "patch") == "links_at_patch";
    assert GridValid(grid) by {
      assert LinksAtPatch.Rectangular() && PatchesAtLink.Rectangular();
    }
    assert ResolveTables(grid, "patch", "link") == Success(Plan(PatchesAtLink, LinksAtPatch));
    var out := new IdArray.EmptyLike(Table(Int32, 4, LinksAtPatch.values));
    assert !out.Matches(LinksAtPatch);
    r := MapNeighbors(grid, "patch", "link", Some([100]), Some(out));
  }
}
