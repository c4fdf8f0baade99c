/**
 The glue of the two entry points, src/main.py and metrics/src/main.py:
 cleaning, graph construction, (in src only) the self-loop sweep, and the
 join of the measures onto the cleaned node table. Measures computed by
 networkx are taken as given functions of the graph.
 */
module Pipeline {
  import opened Wrappers
  import opened Frames
  import opened Cleaner
  import opened Graphs
  import opened Builder
  import opened Centralities
  import opened Disruption
  import opened Join

  /** The identifier column each entry point uses. */
  const SrcKey: string := "ecli"
  const MetricsKey: string := "ECLI"

  datatype Cleaned = Cleaned(nodes: Table, edges: Table)

  /** Drop communicated cases, then keep the edge rows whose target is the
      identifier of a remaining case. */
  function CleanRecords(nodes: Table, edges: Table, key: string): (r: Result<Cleaned, Error>)
    ensures r.Failure? <==> DocTypeBranch !in nodes.columns || key !in nodes.columns || TargetColumn !in edges.columns
    ensures r.Success? ==> r.value.nodes.columns == nodes.columns && r.value.edges.columns == edges.columns
    ensures r.Success? && nodes.Valid() ==> r.value.nodes.Valid()
    ensures r.Success? && edges.Valid() ==> r.value.edges.Valid()
    ensures r.Success? ==> forall row :: row in r.value.nodes.rows <==>
              row in nodes.rows && Cell(row, DocTypeBranch) != CommunicatedCases
    ensures r.Success? ==> forall row :: row in r.value.edges.rows <==>
              row in edges.rows && Cell(row, TargetColumn) in ColumnValues(r.value.nodes.rows, key)
  {
    var kept :- RemoveCommunicatedCases(nodes);
    var ids :- ColumnSet(kept, key);
    var links :- FilterTargets(edges, ids);
    Success(Cleaned(kept, links))
  }

  /** After cleaning, every edge row cites a case that has a node row, and
      that case is not a communicated one. */
  lemma CleanedEdgesCiteKeptCases(nodes: Table, edges: Table, key: string)
    requires CleanRecords(nodes, edges, key).Success?
    ensures forall row :: row in CleanRecords(nodes, edges, key).value.edges.rows ==>
              exists case_ :: case_ in nodes.rows && Cell(case_, DocTypeBranch) != CommunicatedCases &&
                              Cell(case_, key) == Cell(row, TargetColumn)
  {
    var c := CleanRecords(nodes, edges, key).value;
    forall row | row in c.edges.rows
      ensures exists case_ :: case_ in nodes.rows && Cell(case_, DocTypeBranch) != CommunicatedCases &&
                              Cell(case_, key) == Cell(row, TargetColumn)
    {
      var case_ :| case_ in c.nodes.rows && Cell(case_, key) == Cell(row, TargetColumn);
      assert case_ in nodes.rows;
    }
  }

  /** Well-formed records with every column the cleaning and the builder read. */
  predicate Analysable(nodes: Table, edges: Table, key: string) {
    Buildable(nodes, edges, key) && DocTypeBranch in nodes.columns
  }

  /** On such records cleaning succeeds and the cleaned records build. */
  lemma CleanedBuild(nodes: Table, edges: Table, key: string)
    requires Analysable(nodes, edges, key)
    ensures CleanRecords(nodes, edges, key).Success?
    ensures var c := CleanRecords(nodes, edges, key).value;
            Buildable(c.nodes, c.edges, key) && CreateGraph(c.nodes, c.edges, key).Success?
  {
  }

  /** `n` identifies a case whose node row survives cleaning. */
  ghost predicate KeptCase(nodes: Table, key: string, n: Node) {
    exists case_ :: case_ in nodes.rows && Cell(case_, DocTypeBranch) != CommunicatedCases && Cell(case_, key) == n
  }

  /** `e` is the pair of some edge row that cites a kept case. */
  ghost predicate KeptCitation(nodes: Table, edges: Table, key: string, e: Edge) {
    && (exists row :: row in edges.rows && (Cell(row, SourceColumn), Cell(row, TargetColumn)) == e)
    && KeptCase(nodes, key, e.1)
  }

  /** The pairs of the cleaned edge rows are exactly the citations of kept
      cases, and the cleaned identifiers are exactly the kept cases. */
  lemma CleanedPairs(nodes: Table, edges: Table, key: string)
    requires CleanRecords(nodes, edges, key).Success?
    ensures var c := CleanRecords(nodes, edges, key).value;
            forall e :: e in Pairs(c.edges.rows) <==> KeptCitation(nodes, edges, key, e)
    ensures var c := CleanRecords(nodes, edges, key).value;
            forall n :: n in ColumnValues(c.nodes.rows, key) <==> KeptCase(nodes, key, n)
  {
    var c := CleanRecords(nodes, edges, key).value;
    forall n ensures n in ColumnValues(c.nodes.rows, key) <==> KeptCase(nodes, key, n) {
      if KeptCase(nodes, key, n) {
        var case_ :| case_ in nodes.rows && Cell(case_, DocTypeBranch) != CommunicatedCases && Cell(case_, key) == n;
        assert case_ in c.nodes.rows;
      }
    }
    forall e ensures e in Pairs(c.edges.rows) <==> KeptCitation(nodes, edges, key, e) {
      if KeptCitation(nodes, edges, key, e) {
        var row :| row in edges.rows && (Cell(row, SourceColumn), Cell(row, TargetColumn)) == e;
        assert row in c.edges.rows;
      }
      if e in Pairs(c.edges.rows) {
        var row :| row in c.edges.rows && (Cell(row, SourceColumn), Cell(row, TargetColumn)) == e;
        assert row in edges.rows;
      }
    }
  }

  /** Graph construction followed, in src/main.py, by the self-loop sweep. */
  function BuildSwept(c: Cleaned, key: string): (r: Result<Graph, Error>)
    ensures r.Success? ==> r.value.Valid() && NoSelfLoops(r.value)
    ensures r.Success? ==> r.value.nodes == ColumnValues(c.nodes.rows, key) + Endpoints(c.edges.rows)
    ensures r.Success? ==> forall e :: e in r.value.edges <==> e in Pairs(c.edges.rows) && e.0 != e.1
  {
    var g :- CreateGraph(c.nodes, c.edges, key);
    Success(RemoveSelfLoops(g))
  }

  /** The graph src/main.py analyses. */
  function SrcGraph(nodes: Table, edges: Table): (r: Result<Graph, Error>)
    ensures r.Success? ==> r.value.Valid() && NoSelfLoops(r.value)
    ensures r.Success? ==> CleanRecords(nodes, edges, SrcKey).Success?
    ensures r.Success? ==> forall e :: e in r.value.edges <==> KeptCitation(nodes, edges, SrcKey, e) && e.0 != e.1
    ensures r.Success? ==> forall n :: KeptCase(nodes, SrcKey, n) ==> n in r.value.nodes
  {
    var c :- CleanRecords(nodes, edges, SrcKey);
    CleanedPairs(nodes, edges, SrcKey);
    BuildSwept(c, SrcKey)
  }

  /** Every edge of the src graph joins two distinct cases and cites a case
      that has a non-communicated node row. */
  lemma SrcEdgesCiteKeptCases(nodes: Table, edges: Table)
    requires SrcGraph(nodes, edges).Success?
    ensures forall e :: e in SrcGraph(nodes, edges).value.edges ==>
              e.0 != e.1 &&
              exists case_ :: case_ in nodes.rows && Cell(case_, DocTypeBranch) != CommunicatedCases &&
                              Cell(case_, SrcKey) == e.1
  {
    var c := CleanRecords(nodes, edges, SrcKey).value;
    CleanedEdgesCiteKeptCases(nodes, edges, SrcKey);
    forall e | e in SrcGraph(nodes, edges).value.edges
      ensures exists case_ :: case_ in nodes.rows && Cell(case_, DocTypeBranch) != CommunicatedCases &&
                              Cell(case_, SrcKey) == e.1
    {
      assert e in Pairs(c.edges.rows);
      var row :| row in c.edges.rows && (Cell(row, SourceColumn), Cell(row, TargetColumn)) == e;
    }
  }

  /** The graph metrics/src/main.py analyses: there is no sweep. */
  function MetricsGraph(nodes: Table, edges: Table): (r: Result<Graph, Error>)
    ensures r.Success? ==> r.value.Valid()
    ensures r.Success? ==> CleanRecords(nodes, edges, MetricsKey).Success?
    ensures r.Success? ==> forall e :: e in r.value.edges <==> KeptCitation(nodes, edges, MetricsKey, e)
    ensures r.Success? ==> forall n :: KeptCase(nodes, MetricsKey, n) ==> n in r.value.nodes
  {
    var c :- CleanRecords(nodes, edges, MetricsKey);
    CleanedPairs(nodes, edges, MetricsKey);
    CreateGraph(c.nodes, c.edges, MetricsKey)
  }

  /** Without a sweep, a self-citing edge row that survives cleaning becomes
      a self-loop of the metrics graph. */
  lemma MetricsKeepsSelfCitations(nodes: Table, edges: Table, row: Row, case_: Row)
    requires MetricsGraph(nodes, edges).Success?
    requires row in edges.rows && Cell(row, SourceColumn) == Cell(row, TargetColumn)
    requires case_ in nodes.rows && Cell(case_, DocTypeBranch) != CommunicatedCases
    requires Cell(case_, MetricsKey) == Cell(row, TargetColumn)
    ensures (Cell(row, TargetColumn), Cell(row, TargetColumn)) in MetricsGraph(nodes, edges).value.edges
    ensures !NoSelfLoops(MetricsGraph(nodes, edges).value)
  {
    var c := CleanRecords(nodes, edges, MetricsKey).value;
    assert case_ in c.nodes.rows;
    assert row in c.edges.rows;
    assert (Cell(row, SourceColumn), Cell(row, TargetColumn)) in Pairs(c.edges.rows);
  }

  // ---------------------------------------------------------------------
  // Measures and the metrics table
  // ---------------------------------------------------------------------

  /** Counts as numeric cells. */
  function Counts(m: map<Node, nat>): (r: Measure)
    ensures r.Keys == m.Keys
  {
    map n | n in m :: Number(m[n] as real)
  }

  /** Reals as numeric cells. */
  function Reals(m: map<Node, real>): (r: Measure)
    ensures r.Keys == m.Keys
  {
    map n | n in m :: Number(m[n])
  }

  /** Scores as cells; an undefined score is NaN. */
  function ScoreCells(m: map<Node, Option<real>>): (r: Measure)
    ensures r.Keys == m.Keys
  {
    map n | n in m :: if m[n].Some? then Number(m[n].value) else Missing
  }

  /** The disruption scores as cells. */
  function DisruptionCells(g: Graph): (r: Measure)
    ensures r.Keys == g.nodes
  {
    ScoreCells(Disruptions(g))
  }

  /** The measures src/main.py delegates to networkx, as functions of the graph. */
  datatype Library = Library(
    degree: Graph -> Measure,
    coreNumber: Graph -> Measure,
    eigenvector: Graph -> Measure,
    pagerank: Graph -> Measure,
    currentFlowBetweenness: Graph -> Measure,
    hits: Graph -> Measure,
    betweenness: Graph -> Measure,
    currentFlowCloseness: Graph -> Measure,
    hub: Graph -> Measure,
    authority: Graph -> Measure,
    harmonic: Graph -> Measure,
    closeness: Graph -> Measure)

  /** The measure dictionary of src/main.py has this many entries. */
  const SrcMeasureCount := 18

  /** The name of the measure dictionary of src/main.py at position `q`. */
  function SrcName(q: nat): string {
    match q
      case 0 => "degree_centrality"
      case 1 => "in_degree_centrality"
      case 2 => "core_number"
      case 3 => "relative_in_degree_centrality"
      case 4 => "eigenvector_centrality"
      case 5 => "pagerank"
      case 6 => "current_flow_betweenness_centrality"
      case 7 => "forest_closeness_centrality"
      case 8 => "hits"
      case 9 => "trophic_level"
      case 10 => "betweenness_centrality"
      case 11 => "current_flow_closeness_centrality"
      case 12 => "out_degree_centrality"
      case 13 => "hub_centrality"
      case 14 => "authority_centrality"
      case 15 => "harmonic_centrality"
      case 16 => "disruption"
      case _ => "closeness_centrality"
  }

  /** The value of the measure dictionary of src/main.py at position `q`,
      looked up in blocks of six. */
  function SrcValue(q: nat, g: Graph, lib: Library): Measure {
    if q < 6 then SrcValueHead(q, g, lib)
    else if q < 12 then SrcValueMiddle(q, g, lib)
    else SrcValueTail(q, g, lib)
  }

  /** Positions 0 to 5. */
  function SrcValueHead(q: nat, g: Graph, lib: Library): Measure {
    match q
      case 0 => lib.degree(g)
      case 1 => Counts(InDegrees(g))
      case 2 => lib.coreNumber(g)
      case 3 => Reals(RelativeInDegrees(g))
      case 4 => lib.eigenvector(g)
      case _ => lib.pagerank(g)
  }

  /** Positions 6 to 11. */
  function SrcValueMiddle(q: nat, g: Graph, lib: Library): Measure {
    match q
      case 6 => lib.currentFlowBetweenness(g)
      case 7 => Reals(ForestCloseness(g))
      case 8 => lib.hits(g)
      case 9 => Reals(TrophicLevel(g))
      case 10 => lib.betweenness(g)
      case _ => lib.currentFlowCloseness(g)
  }

  /** Positions 12 to 17. */
  function SrcValueTail(q: nat, g: Graph, lib: Library): Measure {
    match q
      case 12 => Counts(OutDegrees(g))
      case 13 => lib.hub(g)
      case 14 => lib.authority(g)
      case 15 => lib.harmonic(g)
      case 16 => DisruptionCells(g)
      case _ => lib.closeness(g)
  }

  /** The measure dictionary of src/main.py: each name paired with its
      measure of the graph, in the dictionary's order. */
  function SrcMeasures(g: Graph, lib: Library): (r: seq<(string, Measure)>)
    ensures |r| == SrcMeasureCount
    ensures DistinctNames(r) && SrcKey !in Names(r)
  {
    SrcNamesDistinct();
    seq(SrcMeasureCount, q requires 0 <= q < SrcMeasureCount => (SrcName(q), SrcValue(q, g, lib)))
  }

  /** The position of a measure name in the src/main.py dictionary, told
      apart by its length and first letter; -1 for any other string. */
  ghost function MeasureIndex(name: string): int {
    if |name| == 0 then -1
    else match (|name|, name[0])
      case (17, 'd') => 0
      case (20, 'i') => 1
      case (11, 'c') => 2
      case (29, 'r') => 3
      case (22, 'e') => 4
      case (8, 'p') => 5
      case (35, 'c') => 6
      case (27, 'f') => 7
      case (4, 'h') => 8
      case (13, 't') => 9
      case (22, 'b') => 10
      case (33, 'c') => 11
      case (21, 'o') => 12
      case (14, 'h') => 13
      case (20, 'a') => 14
      case (19, 'h') => 15
      case (10, 'd') => 16
      case (20, 'c') => 17
      case _ => -1
  }

  /** The measure names of src/main.py are distinct and none is the
      identifier column. */
  lemma SrcNamesDistinct()
    ensures forall p, q :: 0 <= p < q < SrcMeasureCount ==> SrcName(p) != SrcName(q)
    ensures forall q :: 0 <= q < SrcMeasureCount ==> SrcName(q) != SrcKey
  {
    forall q | 0 <= q < SrcMeasureCount ensures MeasureIndex(SrcName(q)) == q {
      match q {
        case 0 => case 1 => case 2 => case 3 => case 4 => case 5 =>
        case 6 => case 7 => case 8 => case 9 => case 10 => case 11 =>
        case 12 => case 13 => case 14 => case 15 => case 16 => case _ =>
      }
    }
    forall p, q | 0 <= p < q < SrcMeasureCount ensures SrcName(p) != SrcName(q) {
      assert MeasureIndex(SrcName(p)) != MeasureIndex(SrcName(q));
    }
    assert MeasureIndex(SrcKey) == -1;
  }

  /** Where the six measures this repository computes itself sit in the
      src/main.py dictionary. */
  lemma SrcCustomEntries(g: Graph, lib: Library)
    ensures var ms := SrcMeasures(g, lib);
            && ms[1] == ("in_degree_centrality", Counts(InDegrees(g)))
            && ms[3] == ("relative_in_degree_centrality", Reals(RelativeInDegrees(g)))
            && ms[7] == ("forest_closeness_centrality", Reals(ForestCloseness(g)))
            && ms[9] == ("trophic_level", Reals(TrophicLevel(g)))
            && ms[12] == ("out_degree_centrality", Counts(OutDegrees(g)))
            && ms[16] == ("disruption", DisruptionCells(g))
  {
    SrcHeadEntries(g, lib);
    SrcMiddleEntries(g, lib);
    SrcTailEntries(g, lib);
  }

  lemma SrcHeadEntries(g: Graph, lib: Library)
    ensures var ms := SrcMeasures(g, lib);
            && ms[1] == ("in_degree_centrality", Counts(InDegrees(g)))
            && ms[3] == ("relative_in_degree_centrality", Reals(RelativeInDegrees(g)))
  {
    assert SrcValue(1, g, lib) == SrcValueHead(1, g, lib);
    assert SrcValue(3, g, lib) == SrcValueHead(3, g, lib);
  }

  lemma SrcMiddleEntries(g: Graph, lib: Library)
    ensures var ms := SrcMeasures(g, lib);
            && ms[7] == ("forest_closeness_centrality", Reals(ForestCloseness(g)))
            && ms[9] == ("trophic_level", Reals(TrophicLevel(g)))
  {
    assert SrcValue(7, g, lib) == SrcValueMiddle(7, g, lib);
    assert SrcValue(9, g, lib) == SrcValueMiddle(9, g, lib);
  }

  lemma SrcTailEntries(g: Graph, lib: Library)
    ensures var ms := SrcMeasures(g, lib);
            && ms[12] == ("out_degree_centrality", Counts(OutDegrees(g)))
            && ms[16] == ("disruption", DisruptionCells(g))
  {
    assert SrcValue(12, g, lib) == SrcValueTail(12, g, lib);
    assert SrcValue(16, g, lib) == SrcValueTail(16, g, lib);
  }

  /** The cells the six custom measures give a node of the graph. */
  lemma CustomCellsOf(g: Graph, n: Node)
    requires n in g.nodes
    ensures Lookup(Counts(InDegrees(g)), n) == Number(|Preds(g, n)| as real)
    ensures Lookup(Counts(OutDegrees(g)), n) == Number(|Succs(g, n)| as real)
    ensures Lookup(Reals(RelativeInDegrees(g)), n) == Number(|Preds(g, n)| as real / |g.nodes| as real)
    ensures Lookup(Reals(ForestCloseness(g)), n) == Missing
    ensures Lookup(Reals(TrophicLevel(g)), n) == Missing
    ensures Lookup(DisruptionCells(g), n) ==
            if DisruptionOf(g, n).Some? then Number(DisruptionOf(g, n).value) else Missing
  {
    DegreeCellsOf(g, n);
    ScoreCellsOf(g, n);
  }

  lemma DegreeCellsOf(g: Graph, n: Node)
    requires n in g.nodes
    ensures Lookup(Counts(InDegrees(g)), n) == Number(|Preds(g, n)| as real)
    ensures Lookup(Counts(OutDegrees(g)), n) == Number(|Succs(g, n)| as real)
    ensures Lookup(Reals(RelativeInDegrees(g)), n) == Number(|Preds(g, n)| as real / |g.nodes| as real)
  { }

  lemma ScoreCellsOf(g: Graph, n: Node)
    requires n in g.nodes
    ensures Lookup(Reals(ForestCloseness(g)), n) == Missing
    ensures Lookup(Reals(TrophicLevel(g)), n) == Missing
    ensures Lookup(DisruptionCells(g), n) ==
            if DisruptionOf(g, n).Some? then Number(DisruptionOf(g, n).value) else Missing
  { }

  /** The table src/main.py hands to the analysis: the cleaned node rows,
      extended by one column per measure of the swept graph. */
  function SrcTable(nodes: Table, edges: Table, lib: Library): (r: Result<Table, Error>)
    ensures r.Success? <==> SrcGraph(nodes, edges).Success?
  {
    var c :- CleanRecords(nodes, edges, SrcKey);
    var g :- SrcGraph(nodes, edges);
    JoinAll(c.nodes, SrcKey, SrcMeasures(g, lib))
  }

  /** On records that have the needed columns and no `None` identifier or
      endpoint anywhere, the src table exists. */
  lemma SrcTableExists(nodes: Table, edges: Table, lib: Library)
    requires Analysable(nodes, edges, SrcKey)
    ensures SrcGraph(nodes, edges).Success? && SrcTable(nodes, edges, lib).Success?
  {
    CleanedBuild(nodes, edges, SrcKey);
  }

  /** Worked example: one case `A`, and one unresolved citation from `B`
      whose target is `None`. */
  function UnresolvedNodes(): Table {
    Table({SrcKey, DocTypeBranch}, [map[SrcKey := Text("A"), DocTypeBranch := Text("X")]])
  }

  function UnresolvedEdges(): Table {
    Table({SourceColumn, TargetColumn}, [map[SourceColumn := Text("B"), TargetColumn := Null]])
  }

  /** Cleaning drops the unresolved citation and keeps the case. */
  lemma UnresolvedCitationCleaned()
    ensures CleanRecords(UnresolvedNodes(), UnresolvedEdges(), SrcKey).Success?
    ensures var c := CleanRecords(UnresolvedNodes(), UnresolvedEdges(), SrcKey).value;
            && c.edges.rows == []
            && Null !in ColumnValues(c.nodes.rows, SrcKey)
  {
    var a := UnresolvedNodes().rows[0];
    var c := CleanRecords(UnresolvedNodes(), UnresolvedEdges(), SrcKey).value;
    assert ColumnValues(c.nodes.rows, SrcKey) <= {Text("A")} by {
      assert forall row :: row in c.nodes.rows ==> row == a;
    }
    assert c.edges.rows == [];
  }

  /** So the raw records are not `Analysable`, yet the table exists and the
      graph has no edge. */
  lemma UnresolvedCitationIsDropped(lib: Library)
    ensures UnresolvedNodes().Valid() && !Analysable(UnresolvedNodes(), UnresolvedEdges(), SrcKey)
    ensures SrcTable(UnresolvedNodes(), UnresolvedEdges(), lib).Success?
    ensures SrcGraph(UnresolvedNodes(), UnresolvedEdges()).value.edges == {}
  {
    var b := UnresolvedEdges().rows[0];
    assert Null in Endpoints(UnresolvedEdges().rows) by {
      assert Cell(b, TargetColumn) == Null;
    }
    UnresolvedCitationCleaned();
    var c := CleanRecords(UnresolvedNodes(), UnresolvedEdges(), SrcKey).value;
    assert Endpoints(c.edges.rows) == {};
  }

  /** The src table has exactly the cleaned node rows, in order, with their
      cells intact and one extra column per measure; a case that is a graph
      node only through an edge row gets no row. */
  lemma SrcTableShape(nodes: Table, edges: Table, lib: Library)
    requires nodes.Valid() && SrcTable(nodes, edges, lib).Success?
    ensures var c, g := CleanRecords(nodes, edges, SrcKey).value, SrcGraph(nodes, edges).value;
            var t := SrcTable(nodes, edges, lib).value;
            && |t.rows| == |c.nodes.rows|
            && t.columns == c.nodes.columns + Names(SrcMeasures(g, lib))
            && KeepsCells(c.nodes, t, Names(SrcMeasures(g, lib)))
            && HoldsMeasures(c.nodes, t, SrcKey, SrcMeasures(g, lib))
            && forall row :: row in t.rows ==> Cell(row, SrcKey) in ColumnValues(c.nodes.rows, SrcKey)
  {
    var c := CleanRecords(nodes, edges, SrcKey).value;
    var g := SrcGraph(nodes, edges).value;
    var ms := SrcMeasures(g, lib);
    assert SrcTable(nodes, edges, lib) == JoinAll(c.nodes, SrcKey, ms);
    var t := SrcTable(nodes, edges, lib).value;
    JoinAllCells(c.nodes, SrcKey, ms);
    KeptIdentifiers(c.nodes, t, SrcKey, Names(ms));
  }

  /** In the src table, each row's in-degree, out-degree, relative
      in-degree and disruption cells are those of its case in the swept
      graph, and the two placeholder columns are NaN throughout. */
  lemma SrcTableCustomCells(nodes: Table, edges: Table, lib: Library, i: nat)
    requires nodes.Valid() && SrcTable(nodes, edges, lib).Success?
    requires i < |CleanRecords(nodes, edges, SrcKey).value.nodes.rows|
    ensures var c, g := CleanRecords(nodes, edges, SrcKey).value, SrcGraph(nodes, edges).value;
            var t, id := SrcTable(nodes, edges, lib).value, Cell(c.nodes.rows[i], SrcKey);
            && id in g.nodes
            && i < |t.rows|
            && Cell(t.rows[i], "in_degree_centrality") == Number(|Preds(g, id)| as real)
            && Cell(t.rows[i], "out_degree_centrality") == Number(|Succs(g, id)| as real)
            && Cell(t.rows[i], "relative_in_degree_centrality") == Number(|Preds(g, id)| as real / |g.nodes| as real)
            && Cell(t.rows[i], "disruption") == (if DisruptionOf(g, id).Some? then Number(DisruptionOf(g, id).value) else Missing)
            && Cell(t.rows[i], "forest_closeness_centrality") == Missing
            && Cell(t.rows[i], "trophic_level") == Missing
  {
    var c := CleanRecords(nodes, edges, SrcKey).value;
    var g := SrcGraph(nodes, edges).value;
    var ms := SrcMeasures(g, lib);
    assert SrcTable(nodes, edges, lib) == JoinAll(c.nodes, SrcKey, ms);
    JoinAllCells(c.nodes, SrcKey, ms);
    var row := JoinAll(c.nodes, SrcKey, ms).value.rows[i];
    var id := Cell(c.nodes.rows[i], SrcKey);
    assert c.nodes.rows[i] in c.nodes.rows;
    assert id in g.nodes;
    CustomRowCells(g, lib, row, id);
  }

  /** A row holding every src measure's lookup for `id` holds the six
      custom cells of `id`. */
  lemma CustomRowCells(g: Graph, lib: Library, row: Row, id: Node)
    requires id in g.nodes
    requires forall q :: 0 <= q < |SrcMeasures(g, lib)| ==>
               SrcMeasures(g, lib)[q].0 in row && row[SrcMeasures(g, lib)[q].0] == Lookup(SrcMeasures(g, lib)[q].1, id)
    ensures Cell(row, "in_degree_centrality") == Number(|Preds(g, id)| as real)
    ensures Cell(row, "out_degree_centrality") == Number(|Succs(g, id)| as real)
    ensures Cell(row, "relative_in_degree_centrality") == Number(|Preds(g, id)| as real / |g.nodes| as real)
    ensures Cell(row, "disruption") == (if DisruptionOf(g, id).Some? then Number(DisruptionOf(g, id).value) else Missing)
    ensures Cell(row, "forest_closeness_centrality") == Missing
    ensures Cell(row, "trophic_level") == Missing
  {
    var ms := SrcMeasures(g, lib);
    SrcCustomEntries(g, lib);
    CustomCellsOf(g, id);
    assert row[ms[1].0] == Lookup(ms[1].1, id);
    assert row[ms[3].0] == Lookup(ms[3].1, id);
    assert row[ms[7].0] == Lookup(ms[7].1, id);
    assert row[ms[9].0] == Lookup(ms[9].1, id);
    assert row[ms[12].0] == Lookup(ms[12].1, id);
    assert row[ms[16].0] == Lookup(ms[16].1, id);
  }

  /** The two measures metrics/src/main.py delegates to networkx. */
  datatype MetricsLibrary = MetricsLibrary(degree: Graph -> Measure, betweenness: Graph -> Measure)

  /** The measure dictionary of metrics/src/main.py. */
  function MetricsMeasures(g: Graph, lib: MetricsLibrary): (r: seq<(string, Measure)>)
    ensures |r| == 2
    ensures Names(r) == {"degree_centrality", "betweenness_centrality"}
    ensures DistinctNames(r) && MetricsKey !in Names(r)
  {
    NamesOfTwo(("degree_centrality", lib.degree(g)), ("betweenness_centrality", lib.betweenness(g)));
    [("degree_centrality", lib.degree(g)), ("betweenness_centrality", lib.betweenness(g))]
  }

  /** The table metrics/src/main.py hands to the analysis. */
  function MetricsTableOf(nodes: Table, edges: Table, lib: MetricsLibrary): (r: Result<Table, Error>)
    ensures r.Success? <==> MetricsGraph(nodes, edges).Success?
  {
    var c :- CleanRecords(nodes, edges, MetricsKey);
    var g :- MetricsGraph(nodes, edges);
    JoinAll(c.nodes, MetricsKey, MetricsMeasures(g, lib))
  }

  /** On records that have the needed columns and no `None` identifier or
      endpoint anywhere, the metrics graph and table exist. */
  lemma MetricsTableExists(nodes: Table, edges: Table, lib: MetricsLibrary)
    requires Analysable(nodes, edges, MetricsKey)
    ensures MetricsGraph(nodes, edges).Success? && MetricsTableOf(nodes, edges, lib).Success?
  {
    CleanedBuild(nodes, edges, MetricsKey);
  }

  /** The metrics table keeps the cleaned node rows in order, with their
      cells intact, and adds only the degree and betweenness columns. */
  lemma MetricsTableShape(nodes: Table, edges: Table, lib: MetricsLibrary)
    requires nodes.Valid() && MetricsTableOf(nodes, edges, lib).Success?
    ensures var c := CleanRecords(nodes, edges, MetricsKey).value;
            var t := MetricsTableOf(nodes, edges, lib).value;
            && |t.rows| == |c.nodes.rows|
            && t.columns == c.nodes.columns + {"degree_centrality", "betweenness_centrality"}
            && KeepsCells(c.nodes, t, {"degree_centrality", "betweenness_centrality"})
  {
    var c := CleanRecords(nodes, edges, MetricsKey).value;
    var g := MetricsGraph(nodes, edges).value;
    assert MetricsTableOf(nodes, edges, lib) == JoinAll(c.nodes, MetricsKey, MetricsMeasures(g, lib));
    JoinTwo(c.nodes, MetricsKey, ("degree_centrality", lib.degree(g)), ("betweenness_centrality", lib.betweenness(g)));
  }

  /** Each row of the metrics table holds the degree and betweenness of its
      case, NaN where a measure has no entry for it. */
  lemma MetricsTableCells(nodes: Table, edges: Table, lib: MetricsLibrary, i: nat)
    requires nodes.Valid() && MetricsTableOf(nodes, edges, lib).Success?
    requires i < |CleanRecords(nodes, edges, MetricsKey).value.nodes.rows|
    ensures var c, g := CleanRecords(nodes, edges, MetricsKey).value, MetricsGraph(nodes, edges).value;
            var t, id := MetricsTableOf(nodes, edges, lib).value, Cell(c.nodes.rows[i], MetricsKey);
            && i < |t.rows|
            && Cell(t.rows[i], "degree_centrality") == Lookup(lib.degree(g), id)
            && Cell(t.rows[i], "betweenness_centrality") == Lookup(lib.betweenness(g), id)
  {
    var c := CleanRecords(nodes, edges, MetricsKey).value;
    var g := MetricsGraph(nodes, edges).value;
    assert MetricsTableOf(nodes, edges, lib) == JoinAll(c.nodes, MetricsKey, MetricsMeasures(g, lib));
    JoinTwo(c.nodes, MetricsKey, ("degree_centrality", lib.degree(g)), ("betweenness_centrality", lib.betweenness(g)));
  }
}
