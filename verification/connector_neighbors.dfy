/** The neighbour-through-a-shared-connector step behind `map_neighbors`:
    for a row `x` of a connector-per-element table and a slot `k`, the element
    on the far side of connector `connectors_at_element[x][k]`. */
module ConnectorNeighbors {
  import opened Tables

  /** An element-per-connector table: one (a, b) pair of element ids per connector. */
  predicate PairTable(eac: Table) {
    eac.Rectangular() && eac.cols == 2
  }

  /** Row `x` can be resolved: it is a row of `cae`, and each of its slots holds
      -1 or the id of a connector of `eac`. This is what the caller must
      guarantee; the compiled routine does not check it. */
  predicate RowResolvable(cae: Table, eac: Table, x: int) {
    && cae.Rectangular() && PairTable(eac)
    && 0 <= x < cae.NumRows()
    && forall k :: 0 <= k < cae.cols ==>
         cae.values[x][k] == -1 || 0 <= cae.values[x][k] < eac.NumRows()
  }

  predicate RowsResolvable(cae: Table, eac: Table, rows: seq<int>) {
    cae.Rectangular() && PairTable(eac) &&
    forall i :: 0 <= i < |rows| ==> RowResolvable(cae, eac, rows[i])
  }

  /** Of the two ends of a connector, the one that is not `x`. */
  function FarEnd(ends: seq<int>, x: int): int
    requires |ends| == 2
  {
    if ends[0] == x then ends[1] else ends[0]
  }

  /** The neighbour of `x` across its `k`-th connector, or -1 for an empty slot. */
  function Neighbor(cae: Table, eac: Table, x: int, k: int): int
    requires RowResolvable(cae, eac, x) && 0 <= k < cae.cols
  {
    var c := cae.values[x][k];
    if c == -1 then -1 else FarEnd(eac.values[c], x)
  }

  /** Connector `c` has `x` as one of its two ends. */
  predicate Joins(eac: Table, c: int, x: int)
    requires PairTable(eac) && 0 <= c < eac.NumRows()
  {
    eac.values[c][0] == x || eac.values[c][1] == x
  }

  /** A consistent pair of tables: every connector in an element's row lists
      that element as an end, and every valid end of a connector is an element
      whose row lists that connector. */
  predicate Consistent(cae: Table, eac: Table) {
    && cae.Rectangular() && PairTable(eac)
    && (forall x, k :: 0 <= x < cae.NumRows() && 0 <= k < cae.cols ==>
          cae.values[x][k] == -1 ||
          (0 <= cae.values[x][k] < eac.NumRows() && Joins(eac, cae.values[x][k], x)))
    && (forall c, j :: 0 <= c < eac.NumRows() && 0 <= j < 2 ==>
          eac.values[c][j] == -1 ||
          (0 <= eac.values[c][j] < cae.NumRows() && c in cae.values[eac.values[c][j]]))
  }

  /** The neighbour rule, stated without reference to how it is computed: an
      empty slot gives -1, and otherwise `y` is the answer exactly when `x`
      and `y` together are the two ends of the connector. */
  lemma NeighborCharacterization(cae: Table, eac: Table, x: int, k: int, y: int)
    requires RowResolvable(cae, eac, x) && 0 <= k < cae.cols
    requires cae.values[x][k] != -1 ==> Joins(eac, cae.values[x][k], x)
    ensures cae.values[x][k] == -1 ==> (Neighbor(cae, eac, x, k) == y <==> y == -1)
    ensures cae.values[x][k] != -1 ==>
      (Neighbor(cae, eac, x, k) == y <==>
        multiset{x, y} == multiset{eac.values[cae.values[x][k]][0], eac.values[cae.values[x][k]][1]})
  {
  }

  /** In a consistent topology a neighbour is -1 or a row of the table, and it is
      -1 exactly when the slot is empty or the connector's two ends are `x` and -1. */
  lemma NeighborIsElement(cae: Table, eac: Table, x: int, k: int)
    requires Consistent(cae, eac) && 0 <= x < cae.NumRows() && 0 <= k < cae.cols
    ensures RowResolvable(cae, eac, x)
    ensures var y := Neighbor(cae, eac, x, k);
      y == -1 || 0 <= y < cae.NumRows()
    ensures Neighbor(cae, eac, x, k) == -1 <==>
      cae.values[x][k] == -1 || multiset(eac.values[cae.values[x][k]]) == multiset{x, -1}
  {
    var c := cae.values[x][k];
    if c != -1 {
      var ends := eac.values[c];
      assert ends == [ends[0], ends[1]];
      assert multiset(ends) == multiset{ends[0], ends[1]};
    }
  }

  /** Neighbourhood is symmetric: if `y` is the neighbour of `x` across some
      connector, then `x` is the neighbour of `y` across some slot of `y`. */
  lemma {:induction false} NeighborSymmetric(cae: Table, eac: Table, x: int, k: int)
    requires Consistent(cae, eac) && 0 <= x < cae.NumRows() && 0 <= k < cae.cols
    requires RowResolvable(cae, eac, x) && Neighbor(cae, eac, x, k) != -1
    ensures var y := Neighbor(cae, eac, x, k);
      0 <= y < cae.NumRows() && RowResolvable(cae, eac, y) &&
      exists j :: 0 <= j < cae.cols && Neighbor(cae, eac, y, j) == x
  {
    var c := cae.values[x][k];
    var y := Neighbor(cae, eac, x, k);
    var e := if eac.values[c][0] == y then 0 else 1;
    assert eac.values[c][e] == y;
    assert 0 <= y < cae.NumRows() && c in cae.values[y];
    var j :| 0 <= j < |cae.values[y]| && cae.values[y][j] == c;
    assert RowResolvable(cae, eac, y) by {
      forall i | 0 <= i < cae.cols
        ensures cae.values[y][i] == -1 || 0 <= cae.values[y][i] < eac.NumRows()
      {
        assert 0 <= y < cae.NumRows() && 0 <= i < cae.cols;
      }
    }
    assert Joins(eac, c, x);
    assert Neighbor(cae, eac, y, j) == x;
  }

  /** `_neighbors_via_connector`: for every row `x` listed in `where` and every
      slot `k`, write the neighbour of `x` across `connectors_at_element[x][k]`
      into `out[x, k]`; every other entry of `out` keeps its value. */
  method NeighborsViaConnector(cae: Table, eac: Table, where: seq<int>, out: array2<int>)
    requires RowsResolvable(cae, eac, where)
    requires out.Length0 == cae.NumRows() && out.Length1 == cae.cols
    modifies out
    ensures forall x, k :: 0 <= x < out.Length0 && 0 <= k < out.Length1 ==>
      out[x, k] == (if x in where then Neighbor(cae, eac, x, k) else old(out[x, k]))
  {
    var i := 0;
    while i < |where|
      invariant 0 <= i <= |where|
      invariant forall x, k :: 0 <= x < out.Length0 && 0 <= k < out.Length1 ==>
        out[x, k] == (if x in where[..i] then Neighbor(cae, eac, x, k) else old(out[x, k]))
    {
      var x := where[i];
      assert RowResolvable(cae, eac, x);
      var k := 0;
      while k < cae.cols
        invariant 0 <= k <= cae.cols
        invariant forall y, j :: 0 <= y < out.Length0 && 0 <= j < out.Length1 ==>
          out[y, j] == (if y in where[..i] || (y == x && j < k) then Neighbor(cae, eac, y, j) else old(out[y, j]))
      {
        var c := cae.values[x][k];
        if c == -1 {
          out[x, k] := -1;
        } else {
          var ends := eac.values[c];
          out[x, k] := if ends[0] == x then ends[1] else ends[0];
        }
        k := k + 1;
      }
      assert where[..i + 1] == where[..i] + [x];
      i := i + 1;
    }
    assert where[..|where|] == where;
  }
}
