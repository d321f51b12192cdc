# Neighbours through a shared connector (landlab `map_neighbors`)

A Dafny model of `map_neighbors` from landlab's graph package. Given a grid,
an element type `at` (node, link, patch, corner, face, cell) and a connector
type (link, face), `map_neighbors` finds, for each element, the element on the
far side of each of its connectors. For example, it gives the patch across
each link of a patch. It works in these steps:

- It checks both names against fixed allow-lists.
- It finds the table `<plural(at)>_at_<connector>` (two elements per connector).
  It requires that table to have exactly two columns.
- It finds the table `<plural(connector)>_at_<at>` (connectors per element).
- It defaults `out` to a buffer shaped like the connector-per-element table,
  and `where` to every row.
- It checks that `out` has that table's dtype and shape.
- It then fills `out[x, k]` for every row `x` in `where`. The value is -1 for an
  empty slot; otherwise it is the end of connector `connectors_at_element[x][k]`
  that is not `x`.

Modules:

- `Wrappers` (wrappers.dfy): `Option` for the optional keyword arguments and
  `Result` for the errors.
- `Tables` (tables.dfy): tables as values (`Table`: width tag, column count,
  rows). The grid is a map from attribute name to table. `IdArray` is the
  writable output ndarray, a class over an `array2<int>`.
- `ConnectorNeighbors` (connector_neighbors.dfy): the neighbour rule
  `Neighbor`, what a consistent topology is, lemmas about both, and
  `NeighborsViaConnector`, which fills `out` in place over `where` and each slot.
- `Neighbors` (neighbors.dfy): `_plural`, the table names, the argument
  checks and lookups (`ResolveTables`) and `MapNeighbors` itself.
- `RasterExample` (raster_example.dfy): the documented 3 x 4 raster example.

The compiled routine `_neighbors_via_connector` is not part of this model. It
is modelled from its documented contract. When `x` is an end of the connector,
the model returns the other end. `NeighborCharacterization` proves that answer
is the only `y` with {x, y} equal to the connector's two ends. So any correct
"other end" implementation agrees with the model whenever the caller keeps to
the contract.

The routine returns an array shaped like the whole connector-per-element
table. That array is the caller's `out` when one is given, and a fresh one
otherwise. Only the rows listed in `where` are written; the model does the
same.

## Model

| member | source | states |
|---|---|---|
| Neighbors.Plural | src/landlab/graph/neighbors.py:13-17 | definition of `_plural`: "patches" for "patch", the name followed by "s" otherwise; its meaning is stated by `PluralRoundTrip` |
| Neighbors.AttrName | src/landlab/graph/neighbors.py:74-87 | definition of the attribute names `<plural(many)>_at_<per>` built at lines 74 and 87; `AttrNameInjective` and `TablesCoincide` state what they determine |
| Neighbors.MappedRows | src/landlab/graph/neighbors.py:98-101 | definition of the rows mapped: the given `where`, or `Arange(n)` when it is omitted; `MappedRowsAre` states which rows those are |
| Tables.IdArray.Matches | src/landlab/graph/neighbors.py:103-109 | definition of the dtype and shape agreement `validate_array` demands of `out`; `MapNeighbors` fails exactly when a given `out` breaks it |
| ConnectorNeighbors.Neighbor | src/landlab/graph/neighbors.py:48-52 | definition of the per-slot rule: -1 for an empty slot, else the end of the connector that is not `x` (via `FarEnd`); `NeighborCharacterization` states it independently of how it is computed |
| Neighbors.PluralRoundTrip | src/landlab/graph/neighbors.py:13-17 | `Singular` undoes `_plural` for exactly the names other than "patche" (both directions) |
| Neighbors.PluralCollision | src/landlab/graph/neighbors.py:13-17 | "patche" and "patch" pluralise to the same "patches", so `_plural` is not injective outside the allow-list |
| Neighbors.JoinUnambiguous | src/landlab/graph/neighbors.py:74-87 | a name `p_at_c` built from parts without '_' determines both parts |
| Neighbors.AttrNameInjective | src/landlab/graph/neighbors.py:74-87 | for allowed names, two `<plural(a)>_at_<c>` table names are equal iff both name pairs are equal |
| Neighbors.TablesCoincide | src/landlab/graph/neighbors.py:74-87 | the element-per-connector and connector-per-element table names coincide iff `at == connector` ("links_at_link" or "faces_at_face") |
| Neighbors.ResolveTables | src/landlab/graph/neighbors.py:71-93 | succeeds iff both names are allowed, `<plural(at)>_at_<connector>` exists with 2 columns and `<plural(connector)>_at_<at>` exists, returning those two tables; errors come in the source's order: a bad connector, then a bad element name, then a missing element-per-connector table, then that table not 2 columns wide, then a missing connector-per-element table, each error naming the offending value or table; conversely a missing-table error always names an absent one of the two tables and a shape error a present table not 2 columns wide |
| Neighbors.RejectedBeforeLookup | src/landlab/graph/neighbors.py:71-76 | a name outside the allow-lists fails whatever the grid holds, with the same error for every grid |
| Neighbors.ResolveDependsOnNamedTables | src/landlab/graph/neighbors.py:74-93 | two grids that agree on the two named tables resolve identically |
| Neighbors.Arange | src/landlab/graph/neighbors.py:98-101 | the default `where` lists the rows 0..n-1 in order |
| Neighbors.MappedRowsAre | src/landlab/graph/neighbors.py:98-101 | without `where` exactly the rows 0..n-1 are mapped, with it exactly the listed rows |
| Neighbors.MapNeighbors | src/landlab/graph/neighbors.py:20-113 | a resolution error is returned unchanged; once resolved, it fails iff a given `out` has another dtype or shape, leaving `out` untouched; on success the result has the connector-per-element table's dtype and shape, is the caller's `out` when one is given (else fresh), holds the neighbour of every mapped row and slot, and keeps every other entry of the caller's `out` |
| Tables.IdArray.EmptyLike | src/landlab/graph/neighbors.py:95-96 | `np.empty_like`: a fresh buffer with the dtype and shape of the given table |
| ConnectorNeighbors.NeighborCharacterization | src/landlab/graph/neighbors.py:48-52 | an empty slot gives -1 and only -1; otherwise `y` is the result iff {x, y} are the connector's two ends (as a multiset) |
| ConnectorNeighbors.NeighborIsElement | src/landlab/graph/neighbors.py:48-52 | in a consistent topology every result is -1 or a valid element id, and it is -1 iff the slot is empty or the connector's two ends are `x` and -1 |
| ConnectorNeighbors.NeighborSymmetric | src/landlab/graph/neighbors.py:48-52 | in a consistent topology, if `y` neighbours `x` across some slot then `x` neighbours `y` across some slot of `y` |
| ConnectorNeighbors.NeighborsViaConnector | src/landlab/graph/neighbors.py:111-113 | fills `out[x, k]` with the neighbour of `x` across slot `k` for every row `x` in `where`, and leaves every other entry unchanged |
| RasterExample.RasterPatchNeighbors | src/landlab/graph/neighbors.py:66-69 | on the 3 x 4 raster, the neighbour rule gives the documented patch-by-link table entry by entry |
| RasterExample.RasterConsistent | src/landlab/graph/neighbors.py:58-69 | the raster's `links_at_patch` and `patches_at_link` tables form a consistent topology |
| RasterExample.RasterSymmetric | src/landlab/graph/neighbors.py:58-69 | in the documented table, every patch neighbour relation is symmetric |
| RasterExample.RasterMapNeighbors | src/landlab/graph/neighbors.py:66-69 | `map_neighbors(grid, at="patch", connector="link")` succeeds on the raster and returns the documented 6 x 4 table |
| RasterExample.RasterRejectsInt32Output | src/landlab/graph/neighbors.py:103-109 | an int32 `out` on the raster is rejected with the output-mismatch error, even with a `where` row the grid lacks, because validation precedes the fill |

## Left out

- The body of the compiled `_neighbors_via_connector` is not part of this model, and neither is any parallel loop in it. The fill is modelled sequentially from its documented contract. Rows are independent, so the order of the writes does not change the result.
- `NeighborsViaConnector`: when `x` is not an end of its connector (an inconsistent topology), the value written is this model's choice (the connector's first end). The source leaves that case undefined.
- Out-of-range rows in `where`, and slots that hold neither -1 nor a valid connector id, are a caller obligation (`RowsResolvable`, `CallerContract`) once `out` has passed validation. `map_neighbors` does not check them; the compiled routine's handling of them is not modelled.
- `require_one_of` and `validate_array` are not part of this model. The first is modelled as a membership test. The second is modelled as an equality test on dtype and shape, with one `OutputMismatch` error, because the order of its checks is not known. Exception classes and messages are reduced to the `Error` constructors.
- The writability and C-contiguity checks of `validate_array` are left out: they are about numpy memory layout.
- The `ModelGrid` class and `getattr` are replaced by a map from attribute name to table.
- Tables are always 2-D. The `IndexError` a 1-D table would raise on `shape[1]` is not modelled.
- Integer widths are a tag (`Int32`, `Int64`) compared between `out` and the connector-per-element table. The values themselves are unbounded, and any dispatch on integer width inside the compiled routine is not modelled.
- The contents of a fresh `out` (`np.empty_like`) outside the mapped rows are unspecified. The model promises nothing about them.
- The raster's `links_at_patch` and `patches_at_link` tables are written out by hand from landlab's raster numbering. `RasterModelGrid` is not part of this model.
- landlab's sorting of links at nodes by angle is not modelled.
