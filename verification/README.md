# Citation-network metrics pipeline, modelled in Dafny

This project models the core of `metricanalysis`, a tool that ranks court
decisions by their position in a citation network. The pipeline does the
following:

- It reads case records (node rows, keyed by an ECLI identifier) and citation
  records (edge rows with a `source` and a `target`).
- It drops communicated cases and keeps only the citations whose target is a
  remaining case.
- It builds a directed graph from the records. In `src/main.py` it then
  removes self-loops.
- It computes per-case measures and attaches each one to the node table as a
  new column, looked up by the case's identifier.

Modules, one per file:

| module | file | what it holds |
|---|---|---|
| `Wrappers` | wrappers.dfy | `Option` and `Result`. A raised `KeyError` or `ValueError` is a `Result` failure. |
| `Frames` | frames.dfy | Data frames: cells (`Text`, `Number`, `Missing` for NaN, `Null` for a JSON `null`), rows as column-to-cell maps, tables, and `set(frame[c])`. |
| `Sequences` | sequences.dfy | Boolean-mask row selection (`Filter`) and its order and multiplicity laws. |
| `Cleaner` | cleaner.dfy | `DataCleaner.remove_communicated_cases` and `filter_targets`. |
| `Graphs` | graphs.dfy | A networkx `DiGraph`: `add_node`, `add_edge` and the self-loop sweep. |
| `Builder` | builder.dfy | `GraphBuilder.create_graph`. |
| `Centralities` | centralities.dfy | In- and out-degree, relative in-degree, and the two placeholder measures. |
| `Disruption` | disruption.dfy | The disruption index. It has a set-based reference definition and the source's three list-building loops, proved to agree with it. |
| `Join` | join.dfy | `frame[name] = frame[key].map(measure)`, one measure at a time and over the whole measure dictionary. |
| `Pipeline` | pipeline.dfy | The two entry points `src/main.py` and `metrics/src/main.py`, from the raw tables to the table handed to the analysis. |

The two copies of the cleaner (`src/data_ingestion/cleaner.py` and
`metrics/src/data_ingestion/cleaner.py`) are identical and are modelled once.

The measures delegated to networkx (degree centrality, PageRank, betweenness
and so on) enter the model as given functions from graphs to identifier-keyed
maps: the `Library` and `MetricsLibrary` records in `Pipeline`.

## Model

| member | source | states |
|---|---|---|
| Frames.ColumnSet | src/main.py:37 | `set(frame[c])` fails with `KeyError(c)` exactly when the column is missing, even on an empty frame. Otherwise it holds exactly the cells of that column. |
| Sequences.FilterCounts | src/data_ingestion/cleaner.py:14 | A boolean mask keeps every satisfying row as many times as it occurs and drops every other row. |
| Sequences.FilterIsSubsequence | src/data_ingestion/cleaner.py:27 | A boolean mask never reorders rows: the result is a subsequence of the input. |
| Sequences.FilterIdempotent | src/data_ingestion/cleaner.py:14 | Applying the same mask twice equals applying it once. |
| Sequences.FilterMonotone | src/data_ingestion/cleaner.py:27 | A weaker mask keeps a super-sequence of the rows that a stronger mask keeps. |
| Cleaner.RemoveCommunicatedCases | src/data_ingestion/cleaner.py:4-14 | Fails with `KeyError('doctypebranch')` exactly when that column is missing. Otherwise it keeps the columns and validity, and a row survives if and only if its branch is not `COMMUNICATEDCASES`. |
| Cleaner.KeepsNonCommunicatedInOrder | src/data_ingestion/cleaner.py:14 | Surviving rows keep their order and their multiplicity. A communicated row occurs zero times. A row whose branch is NaN or `None` survives, because either compares unequal to `COMMUNICATEDCASES`. |
| Cleaner.RemoveCommunicatedIdempotent | metrics/src/data_ingestion/cleaner.py:14 | Cleaning an already cleaned table changes nothing. |
| Cleaner.FilterTargets | src/data_ingestion/cleaner.py:16-27 | Fails with `KeyError('target')` exactly when that column is missing. Otherwise a row survives if and only if its target is among the valid identifiers. |
| Cleaner.KeepsValidTargetsInOrder | src/data_ingestion/cleaner.py:27 | Rows keep their order. A row with a valid target keeps its full multiplicity and any other row is dropped, whatever its source cell holds. |
| Cleaner.FilterTargetsIdempotent | metrics/src/data_ingestion/cleaner.py:27 | Filtering again with the same identifier set removes nothing. |
| Cleaner.FilterTargetsMonotone | src/data_ingestion/cleaner.py:27 | A larger identifier set keeps a super-sequence of the rows. |
| Graphs.AddNode | src/graph/builder.py:19 | `add_node(n, **a)` adds `n` and updates its attribute dictionary. Values in `a` win, earlier attributes outside `a` stay, and other nodes are untouched. The `ValueError` networkx raises for a `None` node is raised by the node and edge loops of `Builder`. |
| Graphs.AddEdge | src/graph/builder.py:21 | `add_edge(u, v)` adds the pair and both endpoints. A newly created endpoint gets an empty attribute dictionary, existing attributes are untouched, and a repeated pair leaves the graph unchanged. |
| Graphs.RemoveSelfLoops | src/main.py:49 | The result has no self-loops. An edge remains if and only if it was there and joins two distinct nodes. Nodes and attributes are unchanged. |
| Graphs.SweepIdempotent | src/main.py:49 | The sweep is the identity on a loop-free graph, so sweeping twice equals sweeping once. |
| Builder.AddNodeRows | src/graph/builder.py:18-19 | The node loop fails if and only if some row lacks the key (`KeyError(key)`) or some identifier is `None` (networkx's `ValueError`). When every row has the key the error is the `ValueError`, and when no identifier is `None` it is the `KeyError`. Otherwise it adds exactly the rows' identifiers as nodes and no edges. |
| Builder.AddEdgeRows | src/graph/builder.py:20-21 | The edge loop fails if and only if some row lacks `source` or `target` (`KeyError`) or some endpoint is `None` (`ValueError`). When every row has both columns the error is the `ValueError`, and when no endpoint is `None` it is a `KeyError`. Otherwise it adds exactly the rows' pairs and endpoints, and only edge-created nodes get empty attributes. |
| Builder.LastWithKey | src/graph/builder.py:18-19 | The row found for an identifier carries it, and no later row does; there is none exactly when no row carries it. |
| Builder.NodeAttrsAreLastRow | src/graph/builder.py:18-19 | On rows sharing one column set, each identifier's attributes are exactly its last row. A later duplicate row overwrites an earlier one completely. |
| Builder.CreateGraph | src/graph/builder.py:6-22 | It fails exactly when a non-empty table lacks a column it reads or an identifier or endpoint is `None`, and only with those errors: the `ValueError` when no column is missing from any row, a `KeyError` when nothing is `None`. The nodes are the node rows' identifiers plus every edge endpoint, and the edges are exactly the rows' pairs. Nodes known only from an edge have no attributes, and node-row nodes carry their last row. |
| Builder.RebuildFromSamePairs | src/graph/builder.py:17-22 | On well-formed records that have the columns the builder reads and no `None` identifier or endpoint, the build succeeds. It depends on the edge rows only through their set of pairs, so reordering or repeating edge rows gives the same graph. |
| Centralities.DegreeCountsNeighbours | src/centralities/calculator.py:42 | A node's in-degree is its number of citing cases and its out-degree is its number of cited cases. |
| Centralities.Degrees | src/centralities/calculator.py:42 | `dict(G.in_degree())` / `dict(G.out_degree())` has one entry per node: the size of its predecessor or successor set. |
| Centralities.InDegrees | src/centralities/calculator.py:32-42 | One entry per node, equal to its number of citing cases. |
| Centralities.OutDegrees | src/centralities/calculator.py:171-181 | One entry per node, equal to its number of cited cases. |
| Centralities.DegreeSumIsEdgeCount | src/centralities/calculator.py:181 | The in-degrees sum to the number of edges, and so do the out-degrees. |
| Centralities.RelativeInDegree | src/centralities/calculator.py:68 | A node's entry is its number of citing cases divided by the node count, and on a well-formed graph it lies in [0, 1]. |
| Centralities.RelativeInDegrees | src/centralities/calculator.py:66-68 | One entry per node, equal to its number of citing cases divided by the node count. On a well-formed graph each value lies in [0, 1]. An empty graph divides nothing. |
| Centralities.ForestCloseness | src/centralities/calculator.py:116-118 | The placeholder gives no node a value. |
| Centralities.TrophicLevel | src/centralities/calculator.py:143-145 | The placeholder gives no node a value. |
| Disruption.Score | src/centralities/calculator.py:255-257 | The score is undefined exactly when `i + j + k == 0`. Otherwise the value times the denominator is `i - j`, and the value lies in [-1, 1]. |
| Disruption.DisruptionOf | src/centralities/calculator.py:255-257 | A node's score is undefined exactly when it has no cited case and no secondary edge. Otherwise the score lies in [-1, 1]. |
| Disruption.Disruptions | src/centralities/calculator.py:227-259 | One score per node, equal to that node's reference score. It is undefined exactly when the node cites nothing and its citing cases cite nothing but the node; otherwise it lies in [-1, 1]. |
| Disruption.Undefined | src/centralities/calculator.py:255-257 | A node's score is undefined if and only if it cites nothing and every case citing it cites nothing else. |
| Disruption.SplitsSuccessors | src/centralities/calculator.py:247-249 | `i` and `j` are disjoint, together they are the cited cases, and their sizes add up to the out-degree. |
| Disruption.SecondaryMultiplicity | src/centralities/calculator.py:250-254 | `k` never holds a member of `j` or the node itself. Any other case occurs in it once per citing case of the node that cites it. |
| Disruption.Uncited | src/centralities/calculator.py:241-257 | A case nobody cites has empty `j` and `k`. It scores 1 if it cites something and is undefined when isolated. |
| Disruption.TriangleUncitedScoresOne | src/centralities/calculator.py:241-258 | Worked example: A cites B and C, and B cites C. Then A scores 1. |
| Disruption.TriangleReinforcingScoresMinusOne | src/centralities/calculator.py:241-258 | Worked example: on the same triangle, B scores -1 (`j = [C]`). |
| Disruption.TriangleSinkScoresZero | src/centralities/calculator.py:241-258 | Worked example: on the same triangle, C scores 0 (`k = [B]`). |
| Disruption.Neighbours | src/centralities/calculator.py:221-225 | The two lists hold exactly the citing and the cited cases, each once. |
| Disruption.SharedList | src/centralities/calculator.py:241-246 | The first loop builds a duplicate-free `j` holding exactly the cited cases that some citing case also cites. |
| Disruption.UniqueList | src/centralities/calculator.py:247-249 | The second loop builds a duplicate-free `i` holding exactly the cited cases outside `j`. |
| Disruption.AppendSecondary | src/centralities/calculator.py:252-254 | For one citing case, the inner loop appends exactly one copy of each case it cites that is outside `j` and is not the node. |
| Disruption.SecondaryList | src/centralities/calculator.py:250-254 | The third loop builds a `k` as long as the reference secondary-edge set. Each case appears in it once per citing case that cites it, and never when it is in `j` or is the node. |
| Disruption.NodeDisruption | src/centralities/calculator.py:238-257 | The loop body for one node yields `i` and `j` equal to the reference sets, and `k` with the reference multiplicities. Its score equals the reference score. |
| Disruption.CalculateDisruption | src/centralities/calculator.py:227-259 | One score per node, each equal to the reference score of that node. |
| Join.Lookup | src/main.py:75 | `Series.map(dict)` on one identifier gives the measure's entry, or NaN when there is none. |
| Join.JoinMeasure | src/main.py:74-75 | One assignment fails with `KeyError(key)` exactly when the key column is missing. Otherwise it adds one column, keeps the row count and every other cell, and puts each row's lookup under the new name. |
| Join.JoinAll | src/main.py:74-75 | The loop over the dictionary fails exactly when there is a measure and no key column. Otherwise it adds one column per measure name and keeps the row count and validity. |
| Join.JoinAllCells | src/main.py:74-75 | With distinct names, none of them the key, every row keeps its other cells and holds each measure's lookup for its identifier. |
| Join.KeptIdentifiers | src/main.py:74-75 | A table that keeps its source's cells, key included, has no identifier that the source lacks. |
| Join.JoinTwo | metrics/src/main.py:38-39 | Two assignments with distinct names add exactly those two columns, keep every other cell, and hold each row's lookups. |
| Pipeline.CleanRecords | src/main.py:36-38 | Cleaning fails exactly when `doctypebranch`, the key or `target` is missing. A node row survives if and only if it is not communicated. An edge row survives if and only if its target is the identifier of a surviving node row. |
| Pipeline.CleanedEdgesCiteKeptCases | metrics/src/main.py:19-21 | Every surviving citation cites a case that has a non-communicated node row. |
| Pipeline.CleanedPairs | src/main.py:36-38 | After cleaning, the edge-row pairs are exactly the pairs of raw edge rows whose target identifies a non-communicated case, and the identifiers are exactly those of non-communicated cases. |
| Pipeline.BuildSwept | src/main.py:46-49 | The built and swept graph is well formed and loop-free. Its nodes are the identifiers plus the endpoints. Its edges are exactly the surviving pairs of distinct cases. |
| Pipeline.SrcGraph | src/main.py:36-49 | The analysed graph is well formed and loop-free. An edge is in it if and only if a raw edge row gives that pair, the pair joins two distinct cases, and its target identifies a non-communicated case. Every non-communicated case is a node. |
| Pipeline.MetricsGraph | metrics/src/main.py:18-29 | The metrics graph is well formed. An edge is in it if and only if a raw edge row gives that pair and its target identifies a non-communicated case; self-citations included. Every non-communicated case is a node. |
| Pipeline.SrcEdgesCiteKeptCases | src/main.py:36-49 | Every edge of the analysed graph joins two distinct cases and cites a case with a non-communicated node row. |
| Pipeline.CleanedBuild | src/main.py:36-46 | A sufficient condition only: on well-formed records that have `doctypebranch`, the key, `source` and `target`, with no `None` identifier in any node row and no `None` endpoint in any edge row, cleaning succeeds and the cleaned records build. |
| Pipeline.MetricsKeepsSelfCitations | metrics/src/main.py:29 | The metrics entry point does not sweep. Whenever its graph exists, a self-citation whose case has a non-communicated node row is a self-loop of that graph. |
| Pipeline.SrcNamesDistinct | src/main.py:53-72 | The eighteen measure names are pairwise distinct, and none of them is the key column `ecli`. |
| Pipeline.SrcMeasures | src/main.py:53-72 | The dictionary has eighteen entries with pairwise distinct names, none of them `ecli`, so it joins as eighteen new columns. |
| Pipeline.SrcCustomEntries | src/main.py:55-70 | Positions 1, 3, 7, 9, 12 and 16 of the dictionary hold the in-degree, relative in-degree, forest-closeness, trophic-level, out-degree and disruption measures under their names. |
| Pipeline.CustomCellsOf | src/main.py:55-70 | For a node of the graph, these measures look up its citing-case count, its cited-case count, its citing-case count divided by the node count, NaN, NaN, and its disruption score (NaN when undefined). |
| Pipeline.CustomRowCells | src/main.py:74-75 | A row holding every measure's lookup for a node holds that node's six custom cells. |
| Pipeline.SrcTable | src/main.py:36-75 | Taking every library measure as returning, the analysis table exists exactly when the swept graph does. |
| Pipeline.SrcTableExists | src/main.py:36-75 | A sufficient condition only: taking every library measure as returning, the swept graph and the analysis table exist on well-formed records with the needed columns and no `None` identifier or endpoint in any raw row. |
| Pipeline.UnresolvedCitationCleaned | src/main.py:36-38 | Worked example: with one case `A` and one citation from `B` whose target is `None`, cleaning succeeds, drops the citation and leaves no `None` identifier. |
| Pipeline.UnresolvedCitationIsDropped | src/main.py:36-75 | On that example the node table is well formed and the raw records fall outside the sufficient condition of `Pipeline.SrcTableExists`, yet the analysis table exists and the graph has no edge. |
| Pipeline.SrcTableShape | src/main.py:74-75 | Taking every library measure as returning, whenever the analysis table exists and the node table is well formed, it has the cleaned node rows, in order, with their cells intact plus one column per measure, and each row's measure cells are the measures' lookups for its identifier. A case known only from an edge gets no row. |
| Pipeline.SrcTableCustomCells | src/main.py:74-75 | Taking every library measure as returning, whenever the analysis table exists and the node table is well formed, each cleaned case is a node of the swept graph. In row `i`, the in-degree, out-degree, relative in-degree and disruption cells are those of the row's case in the swept graph. The forest-closeness and trophic-level cells are NaN. |
| Pipeline.MetricsMeasures | metrics/src/main.py:33-39 | The two measures carry the distinct names `degree_centrality` and `betweenness_centrality`, neither of them `ECLI`. |
| Pipeline.MetricsTableOf | metrics/src/main.py:19-39 | The metrics table exists exactly when its graph does. |
| Pipeline.MetricsTableExists | metrics/src/main.py:18-39 | A sufficient condition only: the metrics graph and table exist on well-formed records with the needed columns and no `None` identifier or endpoint in any raw row. |
| Pipeline.MetricsTableShape | metrics/src/main.py:38-39 | Whenever the metrics table exists and the node table is well formed, it keeps the cleaned node rows and their cells, and adds only the degree and betweenness columns. |
| Pipeline.MetricsTableCells | metrics/src/main.py:38-39 | Whenever the metrics table exists and the node table is well formed, in row `i`, the degree and betweenness cells are the measures' entries for the row's `ECLI`, or NaN. |

## Left out

- The measures computed by networkx are parameters: degree, core number, eigenvector, PageRank, current-flow betweenness and closeness, HITS, betweenness, hub, authority, harmonic and closeness centrality. They are library code, and only how their results are joined is modelled.
- `calculate_hits` returns a tuple (src/centralities/calculator.py:130-131), and `calculate_disruption` returns a NumPy array indexed by node position (src/centralities/calculator.py:237, 258). Both are entries of the measure dictionary (src/main.py:62 and 70) and are then fed to `Series.map` at src/main.py:75. The model joins identifier-keyed maps throughout: `Library.hits` is one map, and disruption scores are keyed by node.
- `get_neighbours` (src/centralities/calculator.py:221-225) lacks `self` and calls networkit methods (`forInEdgesOf`, `forEdgesOf`) on a networkx graph, as does `calculate_disruption` (`numberOfNodes`, `iterNodes`, `hasEdge`). The model gives these their evident meaning: predecessors, successors, nodes and edge membership.
- The reassignment of `outgoing` inside the third disruption loop (src/centralities/calculator.py:251) is not modelled separately. It happens after `i` and `j` are final, so it does not change the result.
- The builder reads `row['ecli']` (src/graph/builder.py:19), while metrics/src/main.py keys its cleaning and join by `ECLI`. The identifier column is a parameter of `Builder.CreateGraph`: `ecli` for src/main.py and `ECLI` for metrics/src/main.py. The mismatch itself is not modelled.
- Neighbour lists follow the iteration order of networkx's adjacency dictionaries, which is left unspecified (`Disruption.Enumerate` picks any order). Every property proved holds for every order.
- NaN is the single value `Missing`, which equals itself. pandas' `isin` and `Series.map` also match NaN to NaN, so the model agrees with them. Python's `set()` (src/main.py:37) and networkx's node dictionaries instead compare NaN by object identity, so two NaN cells that are distinct float objects stay distinct there; that distinction is not modelled.
- Degree counts are unbounded integers and the ratios are exact reals, with no floating-point rounding.
- Pipeline.SrcTable: the model takes every library measure as a total function. In networkx, current-flow betweenness and current-flow closeness (src/centralities/calculator.py:104, 169) are not implemented for directed graphs and raise `NetworkXNotImplemented`, so src/main.py as written stops at line 60, before the join at lines 74-75. Eigenvector centrality (line 80) also raises on an empty graph. These library failures are not modelled.
- Pipeline.SrcTableShape: the same assumption; the table it describes is the one src/main.py would build if every library measure returned.
- Pipeline.SrcTableExists: the same assumption as `Pipeline.SrcTable`.
- Pipeline.SrcTableCustomCells: the same assumption as `Pipeline.SrcTable`.
- A JSON `null` in a numeric column becomes NaN in pandas rather than `None`. The model has both values and leaves the choice to the input; it does not model pandas' dtype inference.
- Frames.ColumnSet: cells are hashable scalars (strings, numbers, NaN, `None`). A JSON array or object in the column makes `set()` raise `TypeError: unhashable type` (src/main.py:37), and a JSON `true` merges with `1`; neither is modelled.
- Builder.AddNodeRows: the same restriction; the `TypeError` that `add_node` raises on an array- or object-valued identifier (src/graph/builder.py:19) is not modelled.
- Builder.AddEdgeRows: the same restriction; the `TypeError` that `add_edge` raises on an array- or object-valued endpoint (src/graph/builder.py:21) is not modelled. Such an endpoint can reach it, because `filter_targets` never reads `source`.
- Builder.CreateGraph: its list of failures covers missing columns and `None` only, not the unhashable `TypeError` above, nor `True` and `1` naming the same node.
- Pipeline.CleanRecords: its failure condition covers missing columns only, not the unhashable `TypeError` of `set(nodes_df['ecli'])` at src/main.py:37.
- I/O is left out: reading JSON, writing Excel files, the debugging prints, logging and timers.
- Everything after the join is left out: correlations, regression, composite scores, plots, the command-line wrapper and `setup.py`.
