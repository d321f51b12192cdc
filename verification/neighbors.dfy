/** `map_neighbors`: check the element and connector names, find the two
    adjacency tables by name, check their shapes and the output buffer, and
    fill the output with the neighbour of each requested element. */
module Neighbors {
  import opened Wrappers
  import opened Tables
  import opened ConnectorNeighbors

  /** The connectors adjacency may be computed along. */
  const ConnectorNames: seq<string> := ["link", "face"]

  /** The element types neighbours may be requested for. */
  const ElementNames: seq<string> := ["node", "link", "patch", "corner", "face", "cell"]

  /** `_plural`: "patch" becomes "patches"; every other name gains an "s". */
  function Plural(at: string): string {
    if at == "patch" then "patches" else at + "s"
  }

  /** The partner of `Plural`: undo it. */
  function Singular(s: string): string {
    if s == "patches" then "patch" else if s == [] then [] else s[..|s| - 1]
  }

  /** `Singular` undoes `Plural` for every name except "patche", the one other
      name that `Plural` also maps to "patches". */
  lemma PluralRoundTrip(at: string)
    ensures at != "patche" <==> Singular(Plural(at)) == at
  {
    if at != "patch" {
      assert Plural(at)[..|at|] == at;
    }
  }

  lemma PluralCollision()
    ensures Plural("patche") == Plural("patch")
  {
  }

  /** The name of the table listing, per `per` element, its `many` elements:
      `<plural(many)>_at_<per>`. */
  function AttrName(many: string, per: string): string {
    Plural(many) + "_at_" + per
  }

  predicate NoUnderscore(s: string) {
    forall i :: 0 <= i < |s| ==> s[i] != '_'
  }

  /** A name built as `p + "_at_" + c` from parts without '_' determines its parts. */
  lemma {:induction false} JoinUnambiguous(p: string, c: string, p': string, c': string)
    requires NoUnderscore(p) && NoUnderscore(c) && NoUnderscore(p') && NoUnderscore(c')
    requires p + "_at_" + c == p' + "_at_" + c'
    ensures p == p' && c == c'
  {
    if |p| < |p'| {
      UnderscoreAfter(p, c);
      UnderscoreAfter(p', c');
      assert false;
    } else if |p'| < |p| {
      UnderscoreAfter(p, c);
      UnderscoreAfter(p', c');
      assert false;
    }
    var s := p + "_at_" + c;
    assert p == s[..|p|] && c == s[|p| + 4..];
    assert p' == s[..|p'|] && c' == s[|p'| + 4..];
  }

  /** In `p + "_at_" + c` with no '_' in `p`, the first '_' is at index |p|. */
  lemma UnderscoreAfter(p: string, c: string)
    requires NoUnderscore(p)
    ensures (p + "_at_" + c)[|p|] == '_'
    ensures forall i :: 0 <= i < |p| ==> (p + "_at_" + c)[i] != '_'
  {
  }

  lemma AllowedNames(at: string)
    requires at in ElementNames
    ensures NoUnderscore(at) && NoUnderscore(Plural(at)) && Singular(Plural(at)) == at
  {
  }

  /** Distinct (many, per) pairs of allowed names give distinct table names. */
  lemma {:induction false} AttrNameInjective(a: string, c: string, a': string, c': string)
    requires a in ElementNames && c in ElementNames && a' in ElementNames && c' in ElementNames
    ensures AttrName(a, c) == AttrName(a', c') <==> a == a' && c == c'
  {
    if AttrName(a, c) == AttrName(a', c') {
      AllowedNames(a);
      AllowedNames(c);
      AllowedNames(a');
      AllowedNames(c');
      JoinUnambiguous(Plural(a), c, Plural(a'), c');
    }
  }

  /** The element-per-connector and connector-per-element tables are the same
      table exactly when the element type is the connector type
      ("links_at_link" or "faces_at_face"). */
  lemma TablesCoincide(at: string, connector: string)
    requires at in ElementNames && connector in ConnectorNames
    ensures AttrName(at, connector) == AttrName(connector, at) <==> at == connector
  {
    AttrNameInjective(at, connector, connector, at);
  }

  datatype Error =
    | NotAllowed(value: string, allowed: seq<string>)  // require_one_of
    | MissingTable(name: string)                       // grid lacks the attribute
    | NotPairTable(name: string)                       // element-per-connector table not (n, 2)
    | OutputMismatch                                   // `out` has another dtype or shape

  /** The two tables `map_neighbors` works on. */
  datatype Plan = Plan(elementsAtConnector: Table, connectorsAtElement: Table)

  /** The argument checks and table lookups of `map_neighbors`, in the
      source's order: connector name, element name, the element-per-connector
      table, its width, the connector-per-element table. */
  function ResolveTables(grid: Grid, at: string, connector: string): (r: Result<Plan, Error>)
    ensures r.Success? <==>
      && connector in ConnectorNames && at in ElementNames
      && AttrName(at, connector) in grid && grid[AttrName(at, connector)].cols == 2
      && AttrName(connector, at) in grid
    ensures r.Success? ==>
      r.value == Plan(grid[AttrName(at, connector)], grid[AttrName(connector, at)])
    ensures connector !in ConnectorNames ==> r == Failure(NotAllowed(connector, ConnectorNames))
    ensures connector in ConnectorNames && at !in ElementNames ==> r == Failure(NotAllowed(at, ElementNames))
    ensures connector in ConnectorNames && at in ElementNames && AttrName(at, connector) !in grid ==>
      r == Failure(MissingTable(AttrName(at, connector)))
    ensures (connector in ConnectorNames && at in ElementNames && AttrName(at, connector) in grid &&
             grid[AttrName(at, connector)].cols != 2) ==>
      r == Failure(NotPairTable(AttrName(at, connector)))
    ensures (connector in ConnectorNames && at in ElementNames && AttrName(at, connector) in grid &&
             grid[AttrName(at, connector)].cols == 2 && AttrName(connector, at) !in grid) ==>
      r == Failure(MissingTable(AttrName(connector, at)))
    ensures r.Failure? && r.error.MissingTable? ==>
      r.error.name !in grid &&
      (r.error.name == AttrName(at, connector) || r.error.name == AttrName(connector, at))
    ensures r.Failure? && r.error.NotPairTable? ==>
      r.error.name == AttrName(at, connector) && r.error.name in grid && grid[r.error.name].cols != 2
  {
    if connector !in ConnectorNames then Failure(NotAllowed(connector, ConnectorNames))
    else if at !in ElementNames then Failure(NotAllowed(at, ElementNames))
    else
      var eacName := AttrName(at, connector);
      if eacName !in grid then Failure(MissingTable(eacName))
      else if grid[eacName].cols != 2 then Failure(NotPairTable(eacName))
      else
        var caeName := AttrName(connector, at);
        if caeName !in grid then Failure(MissingTable(caeName))
        else Success(Plan(grid[eacName], grid[caeName]))
  }

  /** A name outside the allow-lists is rejected before any table is looked up:
      the outcome is the same whatever the grid holds. */
  lemma RejectedBeforeLookup(grid: Grid, grid': Grid, at: string, connector: string)
    requires connector !in ConnectorNames || at !in ElementNames
    ensures ResolveTables(grid, at, connector) == ResolveTables(grid', at, connector)
    ensures ResolveTables(grid, at, connector).Failure?
  {
  }

  /** Only the two named tables matter: grids that agree on them resolve alike. */
  lemma ResolveDependsOnNamedTables(grid: Grid, grid': Grid, at: string, connector: string)
    requires forall n :: n == AttrName(at, connector) || n == AttrName(connector, at) ==>
      (n in grid <==> n in grid') && (n in grid ==> grid[n] == grid'[n])
    ensures ResolveTables(grid, at, connector) == ResolveTables(grid', at, connector)
  {
  }

  /** `np.arange(n)`: the rows 0, 1, ..., n - 1 in order. */
  function Arange(n: nat): (r: seq<int>)
    ensures |r| == n
    ensures forall i :: 0 <= i < n ==> r[i] == i
  {
    if n == 0 then [] else Arange(n - 1) + [n - 1]
  }

  /** The rows `map_neighbors` maps: those listed in `where`, or every row. */
  function MappedRows(where: Option<seq<int>>, n: nat): seq<int> {
    if where.Some? then where.value else Arange(n)
  }

  /** Omitting `where` maps exactly the rows 0..n-1; giving it maps exactly the
      rows it lists. */
  lemma MappedRowsAre(where: Option<seq<int>>, n: nat, x: int)
    ensures where.None? ==> (x in MappedRows(where, n) <==> 0 <= x < n)
    ensures where.Some? ==> (x in MappedRows(where, n) <==> x in where.value)
  {
    if where.None? && 0 <= x < n {
      assert Arange(n)[x] == x;
    }
  }

  /** What the caller must guarantee once the tables are found and `out`
      passes validation: every mapped row exists and holds only -1 or valid
      connector ids. A mismatched `out` is rejected before any row is read,
      so nothing is demanded of `where` then. */
  predicate CallerContract(grid: Grid, at: string, connector: string,
                           where: Option<seq<int>>, out: Option<IdArray>) {
    var plan := ResolveTables(grid, at, connector);
    plan.Success? && (out.None? || out.value.Matches(plan.value.connectorsAtElement)) ==>
      RowsResolvable(plan.value.connectorsAtElement, plan.value.elementsAtConnector,
                     MappedRows(where, plan.value.connectorsAtElement.NumRows()))
  }

  /** `map_neighbors(grid, at, connector, where=where, out=out)`. Returns the
      filled buffer (the caller's `out`, or a fresh one shaped like the
      connector-per-element table), or the error the source raises. */
  method MapNeighbors(grid: Grid, at: string, connector: string,
                      where: Option<seq<int>>, out: Option<IdArray>)
    returns (r: Result<IdArray, Error>)
    requires GridValid(grid)
    requires CallerContract(grid, at, connector, where, out)
    modifies if out.Some? then {out.value.data} else {}
    ensures ResolveTables(grid, at, connector).Failure? ==>
      r == Failure(ResolveTables(grid, at, connector).error)
    ensures ResolveTables(grid, at, connector).Success? ==>
      var cae := ResolveTables(grid, at, connector).value.connectorsAtElement;
      (r.Failure? <==> out.Some? && !out.value.Matches(cae)) &&
      (r.Failure? ==> r.error == OutputMismatch)
    ensures r.Failure? && out.Some? ==> unchanged(out.value.data)
    ensures r.Success? ==>
      && ResolveTables(grid, at, connector).Success?
      && var plan := ResolveTables(grid, at, connector).value;
      && var cae, eac := plan.connectorsAtElement, plan.elementsAtConnector;
      && var rows := MappedRows(where, cae.NumRows());
      && r.value.Matches(cae)
      && (out.Some? ==> r.value == out.value)
      && (out.None? ==> fresh(r.value.data))
      && (forall x, k :: 0 <= x < cae.NumRows() && 0 <= k < cae.cols && x in rows ==>
            RowResolvable(cae, eac, x) && r.value.data[x, k] == Neighbor(cae, eac, x, k))
      && (out.Some? ==> forall x, k :: 0 <= x < cae.NumRows() && 0 <= k < cae.cols && x !in rows ==>
            r.value.data[x, k] == old(out.value.data[x, k]))
  {
    var plan :- ResolveTables(grid, at, connector);
    var cae, eac := plan.connectorsAtElement, plan.elementsAtConnector;
    var buffer: IdArray;
    if out.None? {
      buffer := new IdArray.EmptyLike(cae);
    } else {
      buffer := out.value;
    }
    var rows := MappedRows(where, cae.NumRows());
    if !buffer.Matches(cae) {
      return Failure(OutputMismatch);
    }
    NeighborsViaConnector(cae, eac, rows, buffer.data);
    r := Success(buffer);
  }
}
