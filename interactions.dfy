/** The drug–gene edge list and the insertion loop that both drawing scripts
    run over it: a row becomes an undirected edge only when both of its fields
    are present. */
module Interactions {
  import opened Wrappers
  import opened Graphs

  /** One row of the table, with the "Drug" and "Gene" columns; a missing field
      (pandas NaN) is `None`. */
  datatype Row = Row(drug: Option<Node>, gene: Option<Node>)

  /** `pd.notna(row["Drug"]) and pd.notna(row["Gene"])` */
  predicate Complete(row: Row) {
    row.drug.Some? && row.gene.Some?
  }

  /** One iteration of the loop: a complete row inserts its edge, any other
      row leaves the graph as it is. */
  function AddRow(g: Graph, row: Row): (r: Graph)
    requires WellFormed(g)
    ensures WellFormed(r)
    ensures Complete(row) ==> row.drug.value in r.adj && row.gene.value in r.adj[row.drug.value]
                              && row.gene.value in r.adj && row.drug.value in r.adj[row.gene.value]
    ensures Complete(row) ==> Edges(r) == Edges(g) + {{row.drug.value, row.gene.value}}
    ensures !Complete(row) ==> r == g
  {
    if Complete(row) then
      WithEdgeWellFormed(g, row.drug.value, row.gene.value);
      WithEdgeEdges(g, row.drug.value, row.gene.value);
      WithEdge(g, row.drug.value, row.gene.value)
    else g
  }

  /** The graph the loop has built after the given rows, starting from
      `nx.Graph()`; it is well formed whatever the rows are. */
  function FromRows(rows: seq<Row>): (g: Graph)
    ensures WellFormed(g)
  {
    if rows == [] then Empty() else AddRow(FromRows(rows[..|rows| - 1]), rows[|rows| - 1])
  }

  /** The rows that survive the filter, in order. */
  function CompleteRows(rows: seq<Row>): (r: seq<Row>)
    ensures forall i :: 0 <= i < |r| ==> Complete(r[i])
    ensures forall row :: row in r <==> row in rows && Complete(row)
  {
    if rows == [] then []
    else
      var rest := CompleteRows(rows[..|rows| - 1]);
      var last := rows[|rows| - 1];
      assert rows == rows[..|rows| - 1] + [last];
      if Complete(last) then rest + [last] else rest
  }

  /** The unordered pairs named by complete rows. */
  ghost function RowEdges(rows: seq<Row>): set<set<Node>> {
    set i | 0 <= i < |rows| && Complete(rows[i]) :: {rows[i].drug.value, rows[i].gene.value}
  }

  /** The identifiers named by complete rows. */
  ghost function RowIds(rows: seq<Row>): set<Node> {
    (set i | 0 <= i < |rows| && Complete(rows[i]) :: rows[i].drug.value)
    + (set i | 0 <= i < |rows| && Complete(rows[i]) :: rows[i].gene.value)
  }

  /** The insertion loop: `G = nx.Graph()`, then `G.add_edge(drug, gene)` for
      every row whose two fields are present. */
  method BuildGraph(rows: seq<Row>) returns (G: MutableGraph)
    ensures fresh(G) && G.Valid()
    ensures G.View() == FromRows(rows)
  {
    G := new MutableGraph();
    for i := 0 to |rows|
      invariant G.Valid()
      invariant G.View() == FromRows(rows[..i])
    {
      var row := rows[i];
      assert rows[..i + 1][..i] == rows[..i];
      if row.drug.Some? && row.gene.Some? {
        G.AddEdge(row.drug.value, row.gene.value);
      }
    }
    assert rows[..|rows|] == rows;
  }

  lemma RowEdgesSnoc(rows: seq<Row>)
    requires rows != []
    ensures var k := |rows| - 1;
            RowEdges(rows)
            == RowEdges(rows[..k])
               + (if Complete(rows[k]) then {{rows[k].drug.value, rows[k].gene.value}} else {})
  {
    var k := |rows| - 1;
    forall i | 0 <= i < k ensures rows[..k][i] == rows[i] {}
  }

  lemma RowIdsSnoc(rows: seq<Row>)
    requires rows != []
    ensures var k := |rows| - 1;
            RowIds(rows)
            == RowIds(rows[..k])
               + (if Complete(rows[k]) then {rows[k].drug.value, rows[k].gene.value} else {})
  {
    var k := |rows| - 1;
    forall i | 0 <= i < k ensures rows[..k][i] == rows[i] {}
  }

  /** The edges of the built graph are exactly the pairs named by complete
      rows; rows with a missing field contribute none. */
  lemma {:induction false} FromRowsEdges(rows: seq<Row>)
    ensures Edges(FromRows(rows)) == RowEdges(rows)
  {
    if rows != [] {
      var k := |rows| - 1;
      FromRowsEdges(rows[..k]);
      RowEdgesSnoc(rows);
      if Complete(rows[k]) {
        WithEdgeEdges(FromRows(rows[..k]), rows[k].drug.value, rows[k].gene.value);
      }
    }
  }

  /** The nodes of the built graph are exactly the identifiers of complete rows:
      a row with a missing field adds no node either. */
  lemma {:induction false} FromRowsNodes(rows: seq<Row>)
    ensures FromRows(rows).adj.Keys == RowIds(rows)
  {
    if rows != [] {
      var k := |rows| - 1;
      FromRowsNodes(rows[..k]);
      RowIdsSnoc(rows);
    }
  }

  /** Two identifiers are adjacent, in either direction, exactly when some
      complete row names them as its two fields, in either order. */
  lemma FromRowsAdjacency(rows: seq<Row>, x: Node, y: Node)
    ensures var g := FromRows(rows);
            (x in g.adj && y in g.adj[x])
            <==> exists i :: 0 <= i < |rows| && Complete(rows[i])
                             && {rows[i].drug.value, rows[i].gene.value} == {x, y}
    ensures var g := FromRows(rows);
            (x in g.adj && y in g.adj[x]) <==> (y in g.adj && x in g.adj[y])
  {
    var g := FromRows(rows);
    FromRowsEdges(rows);
    EdgeMembership(g, x, y);
    EdgeMembership(g, y, x);
    assert {x, y} == {y, x};
  }

  /** Dropping the incomplete rows first builds the same graph, node order
      included: skipped rows add nothing. */
  lemma {:induction false} SkippedRowsAddNothing(rows: seq<Row>)
    ensures FromRows(CompleteRows(rows)) == FromRows(rows)
  {
    if rows != [] {
      var k := |rows| - 1;
      SkippedRowsAddNothing(rows[..k]);
      if Complete(rows[k]) {
        var c := CompleteRows(rows[..k]) + [rows[k]];
        assert c[..|c| - 1] == CompleteRows(rows[..k]);
      }
    }
  }

  /** A row naming a pair that an earlier complete row already named, in
      either order, leaves the graph unchanged: duplicates collapse. */
  lemma DuplicateRowCollapses(rows: seq<Row>, row: Row, i: nat)
    requires i < |rows| && Complete(rows[i]) && Complete(row)
    requires {row.drug.value, row.gene.value} == {rows[i].drug.value, rows[i].gene.value}
    ensures FromRows(rows + [row]) == FromRows(rows)
  {
    var g := FromRows(rows);
    var s := rows + [row];
    assert s[..|s| - 1] == rows;
    FromRowsEdges(rows);
    var u, v := row.drug.value, row.gene.value;
    assert {u, v} in Edges(g);
    EdgeMembership(g, u, v);
    WithEdgeIdempotent(g, u, v);
  }
}
