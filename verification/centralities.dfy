/**
 The hand-written measures of `CentralityCalculator`
 (src/centralities/calculator.py): raw in- and out-degree, relative
 in-degree, and the two placeholder measures. Measures delegated to networkx
 are not part of this model.
 */
module Centralities {
  import opened Graphs

  /** Which end of an edge a degree counts: `In` counts edges by their head
      (citations received), `Out` by their tail (citations made). */
  datatype Direction = In | Out

  function Endpoint(e: Edge, d: Direction): Node {
    if d == In then e.1 else e.0
  }

  function Opposite(e: Edge, d: Direction): Node {
    if d == In then e.0 else e.1
  }

  /** The edges at `n` in direction `d`. */
  function Incident(g: Graph, n: Node, d: Direction): set<Edge> {
    set e | e in g.edges && Endpoint(e, d) == n
  }

  /** networkx's `in_degree` / `out_degree` of one node: a count of edges. */
  function Degree(g: Graph, n: Node, d: Direction): nat {
    |Incident(g, n, d)|
  }

  /** A set of edges sharing one end has as many edges as far ends. */
  lemma {:induction false} SharedEndCount(s: set<Edge>, n: Node, d: Direction)
    requires forall e :: e in s ==> Endpoint(e, d) == n
    ensures |set e | e in s :: Opposite(e, d)| == |s|
    decreases |s|
  {
    if s != {} {
      var e :| e in s;
      var rest := s - {e};
      SharedEndCount(rest, n, d);
      var far := set x | x in rest :: Opposite(x, d);
      assert (set x | x in s :: Opposite(x, d)) == far + {Opposite(e, d)};
      assert Opposite(e, d) !in far;
    }
  }

  /** In a simple digraph a node's in-degree is its number of citing cases and
      its out-degree its number of cited cases. */
  lemma DegreeCountsNeighbours(g: Graph, n: Node)
    ensures Degree(g, n, In) == |Preds(g, n)|
    ensures Degree(g, n, Out) == |Succs(g, n)|
  {
    SharedEndCount(Incident(g, n, In), n, In);
    forall p ensures p in Preds(g, n) <==> p in set e | e in Incident(g, n, In) :: Opposite(e, In) {
      if p in Preds(g, n) {
        assert (p, n) in Incident(g, n, In);
      }
    }
    assert Preds(g, n) == set e | e in Incident(g, n, In) :: Opposite(e, In);
    SharedEndCount(Incident(g, n, Out), n, Out);
    forall p ensures p in Succs(g, n) <==> p in set e | e in Incident(g, n, Out) :: Opposite(e, Out) {
      if p in Succs(g, n) {
        assert (n, p) in Incident(g, n, Out);
      }
    }
    assert Succs(g, n) == set e | e in Incident(g, n, Out) :: Opposite(e, Out);
  }

  /** `dict(G.in_degree())` or `dict(G.out_degree())`: one raw count per node. */
  function Degrees(g: Graph, d: Direction): (r: map<Node, nat>)
    ensures r.Keys == g.nodes
    ensures forall n :: n in r ==> r[n] == if d == In then |Preds(g, n)| else |Succs(g, n)|
  {
    var r := map n | n in g.nodes :: Degree(g, n, d);
    assert forall n :: n in r ==> r[n] == if d == In then |Preds(g, n)| else |Succs(g, n)| by {
      forall n | n in r ensures r[n] == if d == In then |Preds(g, n)| else |Succs(g, n)| {
        DegreeCountsNeighbours(g, n);
      }
    }
    r
  }

  /** `calculate_in_degree_centrality`: the number of citing cases per node. */
  function InDegrees(g: Graph): (r: map<Node, nat>)
    ensures r.Keys == g.nodes
    ensures forall n :: n in r ==> r[n] == |Preds(g, n)|
  {
    Degrees(g, In)
  }

  /** `calculate_out_degree_centrality`: the number of cited cases per node. */
  function OutDegrees(g: Graph): (r: map<Node, nat>)
    ensures r.Keys == g.nodes
    ensures forall n :: n in r ==> r[n] == |Succs(g, n)|
  {
    Degrees(g, Out)
  }

  ghost function Pick(s: set<Node>): Node
    requires s != {}
  {
    var x :| x in s; x
  }

  /** The sum of the counts of `m` over the nodes `s`. */
  ghost function Sum(m: map<Node, nat>, s: set<Node>): nat
    requires s <= m.Keys
    decreases s
  {
    if s == {} then 0 else m[Pick(s)] + Sum(m, s - {Pick(s)})
  }

  /** The edges ending in `s` are those ending at `x` and those ending in
      the rest of `s`, and no edge is both. */
  lemma EndsSplit(g: Graph, d: Direction, s: set<Node>, x: Node)
    requires x in s
    ensures (set e | e in g.edges && Endpoint(e, d) in s) ==
            Incident(g, x, d) + (set e | e in g.edges && Endpoint(e, d) in s - {x})
    ensures Incident(g, x, d) !! (set e | e in g.edges && Endpoint(e, d) in s - {x})
  {
    var all := set e | e in g.edges && Endpoint(e, d) in s;
    var there := set e | e in g.edges && Endpoint(e, d) in s - {x};
    forall e ensures e in all <==> e in Incident(g, x, d) || e in there {
    }
  }

  /** Summing a degree over some nodes counts the edges whose end lies among them. */
  lemma {:induction false} DegreeSumOver(g: Graph, d: Direction, s: set<Node>)
    requires s <= g.nodes
    ensures Sum(Degrees(g, d), s) == |set e | e in g.edges && Endpoint(e, d) in s|
    decreases s
  {
    if s != {} {
      var x := Pick(s);
      DegreeSumOver(g, d, s - {x});
      var here := Incident(g, x, d);
      var there := set e | e in g.edges && Endpoint(e, d) in s - {x};
      assert Sum(Degrees(g, d), s) == Degrees(g, d)[x] + Sum(Degrees(g, d), s - {x});
      DegreeCountsNeighbours(g, x);
      assert Degrees(g, d)[x] == |here|;
      EndsSplit(g, d, s, x);
      assert |here + there| == |here| + |there|;
    }
  }

  lemma EndsInNodes(g: Graph, d: Direction)
    requires g.Valid()
    ensures (set e | e in g.edges && Endpoint(e, d) in g.nodes) == g.edges
  {
    forall e | e in g.edges ensures Endpoint(e, d) in g.nodes {
    }
  }

  lemma SubsetCardinality(a: set<Node>, b: set<Node>)
    requires a <= b
    ensures |a| <= |b|
  {
    assert b == a + (b - a);
  }

  /** Handshake: on a graph whose edges join its nodes, the in-degrees and the
      out-degrees each sum to the number of edges. */
  lemma DegreeSumIsEdgeCount(g: Graph)
    requires g.Valid()
    ensures Sum(InDegrees(g), g.nodes) == |g.edges|
    ensures Sum(OutDegrees(g), g.nodes) == |g.edges|
  {
    DegreeSumOver(g, In, g.nodes);
    EndsInNodes(g, In);
    DegreeSumOver(g, Out, g.nodes);
    EndsInNodes(g, Out);
  }

  /** The share `count / total` recovers `count` and, when `count <= total`,
      lies in [0, 1]. */
  lemma Share(count: nat, total: nat)
    requires total > 0
    ensures (count as real / total as real) * total as real == count as real
    ensures 0.0 <= count as real / total as real
    ensures count <= total ==> count as real / total as real <= 1.0
  {
  }

  /** One node's relative in-degree: its citing cases as a share of all nodes. */
  lemma RelativeInDegreeOf(g: Graph, n: Node)
    requires n in g.nodes
    ensures |g.nodes| > 0
    ensures (Degree(g, n, In) as real / |g.nodes| as real) * (|g.nodes| as real) == |Preds(g, n)| as real
    ensures g.Valid() ==> 0.0 <= Degree(g, n, In) as real / |g.nodes| as real <= 1.0
  {
    SubsetCardinality({n}, g.nodes);
    DegreeCountsNeighbours(g, n);
    Share(Degree(g, n, In), |g.nodes|);
    if g.Valid() {
      SubsetCardinality(Preds(g, n), g.nodes);
    }
  }

  /** One node's entry of the relative in-degree map. */
  function RelativeInDegree(g: Graph, n: Node): (r: real)
    requires n in g.nodes
    ensures r == |Preds(g, n)| as real / |g.nodes| as real
    ensures g.Valid() ==> 0.0 <= r <= 1.0
  {
    RelativeInDegreeOf(g, n);
    Degree(g, n, In) as real / |g.nodes| as real
  }

  /** `calculate_relative_in_degree_centrality`: in-degree divided by the
      node count. The comprehension runs over the nodes, so on an empty graph
      no division happens at all. */
  function RelativeInDegrees(g: Graph): (r: map<Node, real>)
    ensures r.Keys == g.nodes
    ensures forall n :: n in r ==> r[n] == |Preds(g, n)| as real / |g.nodes| as real
    ensures g.Valid() ==> forall n :: n in r ==> 0.0 <= r[n] <= 1.0
  {
    map n | n in g.nodes :: RelativeInDegree(g, n)
  }

  /** `calculate_forest_closeness_centrality`: a placeholder that computes
      nothing. */
  function ForestCloseness(g: Graph): (r: map<Node, real>)
    ensures forall n :: n !in r
  {
    map[]
  }

  /** `calculate_trophic_level`: a placeholder that computes nothing. */
  function TrophicLevel(g: Graph): (r: map<Node, real>)
    ensures forall n :: n !in r
  {
    map[]
  }
}
