/**
 `GraphBuilder.create_graph` (src/graph/builder.py): every node row becomes a
 node keyed by its identifier cell and carrying the row as attributes, then
 every edge row becomes an edge. Nothing is filtered here: self-citations and
 references to unknown cases are inserted as given.
 */
module Builder {
  import opened Wrappers
  import opened Frames
  import opened Graphs

  /** The (source, target) pairs of the edge rows. */
  function Pairs(rows: seq<Row>): set<Edge> {
    set row | row in rows :: (Cell(row, SourceColumn), Cell(row, TargetColumn))
  }

  /** Every source and target cell of the edge rows. */
  function Endpoints(rows: seq<Row>): set<Node> {
    (set row | row in rows :: Cell(row, SourceColumn)) + (set row | row in rows :: Cell(row, TargetColumn))
  }

  lemma ColumnValuesSnoc(prefix: seq<Row>, last: Row, key: string)
    ensures ColumnValues(prefix + [last], key) == ColumnValues(prefix, key) + {Cell(last, key)}
  {
    var rows := prefix + [last];
    forall x ensures x in ColumnValues(rows, key) <==> x in ColumnValues(prefix, key) + {Cell(last, key)} {
      if x in ColumnValues(rows, key) {
        var row :| row in rows && Cell(row, key) == x;
        if row != last { assert row in prefix; }
      }
      if x in ColumnValues(prefix, key) {
        var row :| row in prefix && Cell(row, key) == x;
        assert row in rows;
      }
      assert last in rows;
    }
  }

  lemma EdgeRowsSnoc(prefix: seq<Row>, last: Row)
    ensures Pairs(prefix + [last]) == Pairs(prefix) + {(Cell(last, SourceColumn), Cell(last, TargetColumn))}
    ensures Endpoints(prefix + [last]) == Endpoints(prefix) + {Cell(last, SourceColumn), Cell(last, TargetColumn)}
  {
    var rows := prefix + [last];
    assert last in rows;
    forall x ensures x in Pairs(rows) <==> x in Pairs(prefix) + {(Cell(last, SourceColumn), Cell(last, TargetColumn))} {
      if x in Pairs(rows) {
        var row :| row in rows && (Cell(row, SourceColumn), Cell(row, TargetColumn)) == x;
        if row != last { assert row in prefix; }
      }
      if x in Pairs(prefix) {
        var row :| row in prefix && (Cell(row, SourceColumn), Cell(row, TargetColumn)) == x;
        assert row in rows;
      }
    }
    forall x ensures x in Endpoints(rows) <==> x in Endpoints(prefix) + {Cell(last, SourceColumn), Cell(last, TargetColumn)} {
      if x in Endpoints(rows) {
        var row :| row in rows && (Cell(row, SourceColumn) == x || Cell(row, TargetColumn) == x);
        if row != last { assert row in prefix; }
      }
      if x in Endpoints(prefix) {
        var row :| row in prefix && (Cell(row, SourceColumn) == x || Cell(row, TargetColumn) == x);
        assert row in rows;
      }
    }
  }

  /** The last row whose identifier cell is `n`, if any. */
  function LastWithKey(rows: seq<Row>, key: string, n: Node): (r: Option<Row>)
    ensures r.None? <==> n !in ColumnValues(rows, key)
    ensures r.Some? ==> r.value in rows && Cell(r.value, key) == n
    ensures r.Some? ==> exists p :: 0 <= p < |rows| && rows[p] == r.value &&
                                    forall q :: p < q < |rows| ==> Cell(rows[q], key) != n
    decreases |rows|
  {
    if |rows| == 0 then None
    else
      var last := rows[|rows| - 1];
      assert rows == rows[..|rows| - 1] + [last];
      if Cell(last, key) == n then
        assert rows[|rows| - 1] == last;
        Some(last)
      else
        var prefix := rows[..|rows| - 1];
        var r := LastWithKey(prefix, key, n);
        if r.Some? then
          var p :| 0 <= p < |prefix| && prefix[p] == r.value &&
                   forall q :: p < q < |prefix| ==> Cell(prefix[q], key) != n;
          assert rows[p] == r.value;
          assert forall q :: p < q < |rows| ==> Cell(rows[q], key) != n;
          r
        else r
  }

  /** The node loop: `G.add_node(row[key], **row)` for each row in order;
      `row[key]` raises on the first row without the key column, and
      `add_node` on the first identifier that is `None`. */
  function AddNodeRows(g: Graph, rows: seq<Row>, key: string): (r: Result<Graph, Error>)
    ensures r.Failure? <==> (exists row :: row in rows && key !in row) || Null in ColumnValues(rows, key)
    ensures r.Failure? ==> r.error in {KeyError(key), NoneNode}
    ensures r.Failure? && (forall row :: row in rows ==> key in row) ==> r.error == NoneNode
    ensures r.Failure? && Null !in ColumnValues(rows, key) ==> r.error == KeyError(key)
    ensures r.Success? ==> r.value.nodes == g.nodes + ColumnValues(rows, key) && r.value.edges == g.edges
    ensures r.Success? && g.Valid() ==> r.value.Valid()
    ensures r.Success? ==> forall n :: n in g.attrs && n !in ColumnValues(rows, key) ==>
              n in r.value.attrs && r.value.attrs[n] == g.attrs[n]
    decreases |rows|
  {
    if |rows| == 0 then Success(g)
    else
      var prefix, last := rows[..|rows| - 1], rows[|rows| - 1];
      assert rows == prefix + [last];
      var h :- AddNodeRows(g, prefix, key);
      ColumnValuesSnoc(prefix, last, key);
      if key !in last then Failure(KeyError(key))
      else if last[key] == Null then Failure(NoneNode)
      else Success(AddNode(h, last[key], last))
  }

  /** The edge loop: `G.add_edge(row['source'], row['target'])` for each row;
      `add_edge` raises when either endpoint is `None`. */
  function AddEdgeRows(g: Graph, rows: seq<Row>): (r: Result<Graph, Error>)
    ensures r.Failure? <==>
              (exists row :: row in rows && (SourceColumn !in row || TargetColumn !in row)) || Null in Endpoints(rows)
    ensures r.Failure? ==> r.error in {KeyError(SourceColumn), KeyError(TargetColumn), NoneNode}
    ensures r.Failure? && (forall row :: row in rows ==> SourceColumn in row && TargetColumn in row) ==>
              r.error == NoneNode
    ensures r.Failure? && Null !in Endpoints(rows) ==> r.error in {KeyError(SourceColumn), KeyError(TargetColumn)}
    ensures r.Success? ==> r.value.nodes == g.nodes + Endpoints(rows) && r.value.edges == g.edges + Pairs(rows)
    ensures r.Success? && g.Valid() ==> r.value.Valid()
    ensures r.Success? ==> forall n :: n in g.attrs ==> n in r.value.attrs && r.value.attrs[n] == g.attrs[n]
    ensures r.Success? ==> forall n :: n in r.value.attrs && n !in g.attrs ==> r.value.attrs[n] == map[]
    decreases |rows|
  {
    if |rows| == 0 then Success(g)
    else
      var prefix, last := rows[..|rows| - 1], rows[|rows| - 1];
      assert rows == prefix + [last];
      var h :- AddEdgeRows(g, prefix);
      EdgeRowsSnoc(prefix, last);
      if SourceColumn !in last then Failure(KeyError(SourceColumn))
      else if TargetColumn !in last then Failure(KeyError(TargetColumn))
      else if last[SourceColumn] == Null || last[TargetColumn] == Null then Failure(NoneNode)
      else Success(AddEdge(h, last[SourceColumn], last[TargetColumn]))
  }

  /** On rows sharing one column set, each identifier's attributes are exactly
      its last row: a later row with the same identifier overwrites every
      column of an earlier one. */
  predicate AttrColumns(g: Graph, columns: set<string>) {
    forall n :: n in g.attrs ==> g.attrs[n].Keys == columns
  }

  lemma LastWithKeySnoc(prefix: seq<Row>, last: Row, key: string, n: Node)
    ensures LastWithKey(prefix + [last], key, n) ==
            if Cell(last, key) == n then Some(last) else LastWithKey(prefix, key, n)
  {
    var rows := prefix + [last];
    assert rows[..|rows| - 1] == prefix;
  }

  lemma AddNodeRowsSnoc(g: Graph, prefix: seq<Row>, last: Row, key: string)
    requires AddNodeRows(g, prefix, key).Success? && key in last && last[key] != Null
    ensures AddNodeRows(g, prefix + [last], key) == Success(AddNode(AddNodeRows(g, prefix, key).value, last[key], last))
  {
    var rows := prefix + [last];
    assert rows[..|rows| - 1] == prefix;
  }

  lemma AddRowKeepsColumns(h: Graph, last: Row, key: string, columns: set<string>)
    requires AttrColumns(h, columns) && key in last && last.Keys == columns
    ensures AttrColumns(AddNode(h, last[key], last), columns)
    ensures AddNode(h, last[key], last).attrs[last[key]] == last
  {
    var n0 := last[key];
    var prior := if n0 in h.attrs then h.attrs[n0] else map[];
    assert prior.Keys <= last.Keys;
    assert prior + last == last;
  }

  lemma {:induction false} NodeAttrsAreLastRow(rows: seq<Row>, key: string, columns: set<string>)
    requires forall row :: row in rows ==> row.Keys == columns && key in row
    requires Null !in ColumnValues(rows, key)
    ensures AddNodeRows(Empty(), rows, key).Success?
    ensures AttrColumns(AddNodeRows(Empty(), rows, key).value, columns)
    ensures forall n :: n in ColumnValues(rows, key) ==>
              AddNodeRows(Empty(), rows, key).value.attrs[n] == LastWithKey(rows, key, n).value
    decreases |rows|
  {
    if |rows| > 0 {
      var prefix, last := rows[..|rows| - 1], rows[|rows| - 1];
      assert rows == prefix + [last];
      assert last in rows;
      ColumnValuesSnoc(prefix, last, key);
      assert Cell(last, key) in ColumnValues(rows, key);
      NodeAttrsAreLastRow(prefix, key, columns);
      AddNodeRowsSnoc(Empty(), prefix, last, key);
      var h := AddNodeRows(Empty(), prefix, key).value;
      AddRowKeepsColumns(h, last, key, columns);
      ColumnValuesSnoc(prefix, last, key);
      forall n | n in ColumnValues(rows, key)
        ensures AddNodeRows(Empty(), rows, key).value.attrs[n] == LastWithKey(rows, key, n).value
      {
        LastWithKeySnoc(prefix, last, key, n);
      }
    }
  }

  /** In a well-formed frame a row lacks a column exactly when the frame has
      rows and lacks that column. */
  lemma RowLacksColumn(t: Table, c: string)
    requires t.Valid()
    ensures (exists row :: row in t.rows && c !in row) <==> |t.rows| > 0 && c !in t.columns
  {
    if |t.rows| > 0 {
      assert t.rows[0] in t.rows;
    }
  }

  /** Well-formed records that have every column the builder reads and no
      `None` identifier or endpoint. */
  predicate Buildable(nodes: Table, edges: Table, key: string) {
    && nodes.Valid() && edges.Valid()
    && key in nodes.columns && SourceColumn in edges.columns && TargetColumn in edges.columns
    && Null !in ColumnValues(nodes.rows, key) && Null !in Endpoints(edges.rows)
  }

  /** `create_graph(nodes_df, edges_df)` with the identifier column `key`. */
  function CreateGraph(nodes: Table, edges: Table, key: string): (r: Result<Graph, Error>)
    ensures nodes.Valid() && edges.Valid() ==>
              (r.Failure? <==> || (|nodes.rows| > 0 && key !in nodes.columns)
                               || (|edges.rows| > 0 && (SourceColumn !in edges.columns || TargetColumn !in edges.columns))
                               || Null in ColumnValues(nodes.rows, key) || Null in Endpoints(edges.rows))
    ensures r.Failure? ==> r.error in {KeyError(key), KeyError(SourceColumn), KeyError(TargetColumn), NoneNode}
    ensures && r.Failure?
            && (forall row :: row in nodes.rows ==> key in row)
            && (forall row :: row in edges.rows ==> SourceColumn in row && TargetColumn in row)
            ==> r.error == NoneNode
    ensures r.Failure? && Null !in ColumnValues(nodes.rows, key) && Null !in Endpoints(edges.rows) ==>
              r.error in {KeyError(key), KeyError(SourceColumn), KeyError(TargetColumn)}
    ensures r.Success? ==> r.value.Valid()
    ensures r.Success? ==> r.value.nodes == ColumnValues(nodes.rows, key) + Endpoints(edges.rows)
    ensures r.Success? ==> r.value.edges == Pairs(edges.rows)
    ensures r.Success? ==> forall n :: n in r.value.nodes && n !in ColumnValues(nodes.rows, key) ==> r.value.attrs[n] == map[]
    ensures r.Success? && nodes.Valid() ==> forall n :: n in ColumnValues(nodes.rows, key) ==>
              r.value.attrs[n] == LastWithKey(nodes.rows, key, n).value
  {
    match AddNodeRows(Empty(), nodes.rows, key)
    case Failure(e) =>
      (if nodes.Valid() then RowLacksColumn(nodes, key); Failure(e) else Failure(e))
    case Success(g) =>
      var r := AddEdgeRows(g, edges.rows);
      if nodes.Valid() then
        NodeAttrsAreLastRow(nodes.rows, key, nodes.columns);
        RowLacksColumn(nodes, key);
        if edges.Valid() then
          RowLacksColumn(edges, SourceColumn);
          RowLacksColumn(edges, TargetColumn);
          r
        else r
      else r
  }

  /** Edge rows with the same pairs touch the same endpoints. */
  lemma SamePairsSameEndpoints(rows: seq<Row>, rows': seq<Row>)
    requires Pairs(rows) == Pairs(rows')
    ensures Endpoints(rows) == Endpoints(rows')
  {
    forall x ensures x in Endpoints(rows) <==> x in Endpoints(rows') {
      if x in Endpoints(rows) {
        var row :| row in rows && (x == Cell(row, SourceColumn) || x == Cell(row, TargetColumn));
        assert (Cell(row, SourceColumn), Cell(row, TargetColumn)) in Pairs(rows');
      }
      if x in Endpoints(rows') {
        var row :| row in rows' && (x == Cell(row, SourceColumn) || x == Cell(row, TargetColumn));
        assert (Cell(row, SourceColumn), Cell(row, TargetColumn)) in Pairs(rows);
      }
    }
  }

  /** Two graphs over the same nodes and edges that both keep the attributes
      of `g` and give every other node empty attributes are one graph. */
  lemma SameExtension(g: Graph, r: Graph, r': Graph)
    requires r.Valid() && r'.Valid() && r.nodes == r'.nodes && r.edges == r'.edges
    requires forall n :: n in g.attrs ==> n in r.attrs && r.attrs[n] == g.attrs[n]
    requires forall n :: n in r.attrs && n !in g.attrs ==> r.attrs[n] == map[]
    requires forall n :: n in g.attrs ==> n in r'.attrs && r'.attrs[n] == g.attrs[n]
    requires forall n :: n in r'.attrs && n !in g.attrs ==> r'.attrs[n] == map[]
    ensures r == r'
  {
    assert r.attrs == r'.attrs;
  }

  /** Adding edge rows with the same pairs to one graph gives one graph. */
  lemma EdgeRowsFromSamePairs(g: Graph, rows: seq<Row>, rows': seq<Row>)
    requires g.Valid()
    requires AddEdgeRows(g, rows).Success? && AddEdgeRows(g, rows').Success?
    requires Pairs(rows) == Pairs(rows')
    ensures AddEdgeRows(g, rows) == AddEdgeRows(g, rows')
  {
    SamePairsSameEndpoints(rows, rows');
    SameExtension(g, AddEdgeRows(g, rows).value, AddEdgeRows(g, rows').value);
  }

  /** Building depends on the edge rows only through their set of pairs: the
      order of the edge rows and repeated rows make no difference, so two
      builds from the same records agree on nodes, edges and attributes. */
  lemma RebuildFromSamePairs(nodes: Table, edges: Table, edges': Table, key: string)
    requires Buildable(nodes, edges, key) && Buildable(nodes, edges', key)
    requires Pairs(edges.rows) == Pairs(edges'.rows)
    ensures CreateGraph(nodes, edges, key).Success?
    ensures CreateGraph(nodes, edges, key) == CreateGraph(nodes, edges', key)
  {
    var g := AddNodeRows(Empty(), nodes.rows, key).value;
    EdgeRowsFromSamePairs(g, edges.rows, edges'.rows);
  }
}
