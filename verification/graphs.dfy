/**
 A simple directed graph as networkx's `DiGraph` holds it: a node set, a set
 of ordered edge pairs (so parallel edges cannot exist) and an attribute
 dictionary per node.
 */
module Graphs {
  import opened Frames

  /** Nodes are keyed by the identifier cell of their record. */
  type Node = Value
  type Edge = (Node, Node)
  type Attrs = map<string, Value>

  datatype Graph = Graph(nodes: set<Node>, edges: set<Edge>, attrs: map<Node, Attrs>) {
    /** Every node has an attribute dictionary and every edge endpoint is a node. */
    predicate Valid() {
      && attrs.Keys == nodes
      && forall e :: e in edges ==> e.0 in nodes && e.1 in nodes
    }
  }

  /** `nx.DiGraph()`. */
  function Empty(): (g: Graph)
    ensures g.Valid() && g.nodes == {} && g.edges == {}
  {
    Graph({}, {}, map[])
  }

  /** `G.add_node(n, **a)`: insert `n` if new, then update its attribute
      dictionary with `a` (values in `a` win). */
  function AddNode(g: Graph, n: Node, a: Attrs): (r: Graph)
    ensures r.nodes == g.nodes + {n} && r.edges == g.edges
    ensures g.Valid() ==> r.Valid()
    ensures n in r.attrs && r.attrs[n].Keys == a.Keys + (if n in g.attrs then g.attrs[n].Keys else {})
    ensures forall c :: c in a ==> r.attrs[n][c] == a[c]
    ensures forall c :: n in g.attrs && c in g.attrs[n] && c !in a ==> r.attrs[n][c] == g.attrs[n][c]
    ensures forall m :: m in g.attrs && m != n ==> m in r.attrs && r.attrs[m] == g.attrs[m]
  {
    var prior := if n in g.attrs then g.attrs[n] else map[];
    Graph(g.nodes + {n}, g.edges, g.attrs[n := prior + a])
  }

  /** `G.add_edge(u, v)`: insert the pair, creating a missing endpoint with an
      empty attribute dictionary; a repeated pair changes nothing. */
  function AddEdge(g: Graph, u: Node, v: Node): (r: Graph)
    ensures r.nodes == g.nodes + {u, v} && r.edges == g.edges + {(u, v)}
    ensures g.Valid() ==> r.Valid()
    ensures forall m :: m in g.attrs ==> m in r.attrs && r.attrs[m] == g.attrs[m]
    ensures forall m :: m in r.attrs && m !in g.attrs ==> r.attrs[m] == map[]
    ensures g.Valid() && (u, v) in g.edges ==> r == g
  {
    var a1 := if u in g.attrs then g.attrs else g.attrs[u := map[]];
    var a2 := if v in a1 then a1 else a1[v := map[]];
    Graph(g.nodes + {u, v}, g.edges + {(u, v)}, a2)
  }

  predicate NoSelfLoops(g: Graph) {
    forall e :: e in g.edges ==> e.0 != e.1
  }

  /** `G.remove_edges_from(nx.selfloop_edges(G))`. */
  function RemoveSelfLoops(g: Graph): (r: Graph)
    ensures NoSelfLoops(r)
    ensures forall e :: e in r.edges <==> e in g.edges && e.0 != e.1
    ensures r.nodes == g.nodes && r.attrs == g.attrs
    ensures g.Valid() ==> r.Valid()
  {
    Graph(g.nodes, (set e | e in g.edges && e.0 != e.1), g.attrs)
  }

  /** The sweep only ever removes self-loops: on a loop-free graph it is the
      identity, hence sweeping twice is sweeping once. */
  lemma SweepIdempotent(g: Graph)
    ensures NoSelfLoops(g) ==> RemoveSelfLoops(g) == g
    ensures RemoveSelfLoops(RemoveSelfLoops(g)) == RemoveSelfLoops(g)
  {
    if NoSelfLoops(g) {
      assert RemoveSelfLoops(g).edges == g.edges;
    }
    var h := RemoveSelfLoops(g);
    assert RemoveSelfLoops(h).edges == h.edges;
  }

  /** Direct predecessors (citing cases) and successors (cited cases). */
  function Preds(g: Graph, n: Node): set<Node> {
    set e | e in g.edges && e.1 == n :: e.0
  }

  function Succs(g: Graph, n: Node): set<Node> {
    set e | e in g.edges && e.0 == n :: e.1
  }
}
