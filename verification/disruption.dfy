/**
 The triadic disruption index of `calculate_disruption`
 (src/centralities/calculator.py). For a focal case `n` with citing cases
 (predecessors) and cited cases (successors):
   j  the cited cases that some citing case of `n` also cites,
   i  the other cited cases of `n`,
   k  for every citing case `p`, every case `p` cites that is not in `j` and
      is not `n` itself, listed once per citing case that reaches it,
 and the score is (|i| - |j|) / (|i| + |j| + |k|), undefined (NaN) when the
 denominator is zero.

 The reference definitions below are stated on sets; `k` is the set of the
 edges p -> o it is made of, so that its size counts a case once per citing
 case. `NodeDisruption` then follows the source's loops over neighbour lists
 and is proved to compute the reference score.
 */
module Disruption {
  import opened Wrappers
  import opened Frames
  import opened Graphs
  import Centralities

  /** j: the cited cases of `n` that some citing case of `n` cites too. */
  function Shared(g: Graph, n: Node): (r: set<Node>)
    ensures r <= Succs(g, n)
  {
    set o | o in Succs(g, n) && exists p :: p in Preds(g, n) && (p, o) in g.edges
  }

  /** i: the cited cases of `n` that no citing case of `n` cites. */
  function Unique(g: Graph, n: Node): set<Node> {
    Succs(g, n) - Shared(g, n)
  }

  /** k, one edge p -> o per entry: `p` cites `n`, and `o` is neither in j
      nor `n`. */
  function Secondary(g: Graph, n: Node): set<Edge> {
    set e | e in g.edges && e.0 in Preds(g, n) && e.1 !in Shared(g, n) && e.1 != n
  }

  /** The guarded ratio (i - j) / (i + j + k): undefined exactly when the
      denominator is zero, and otherwise within [-1, 1]. */
  function Score(i: nat, j: nat, k: nat): (r: Option<real>)
    ensures r.None? <==> i + j + k == 0
    ensures r.Some? ==> r.value * (i + j + k) as real == (i - j) as real
    ensures r.Some? ==> -1.0 <= r.value <= 1.0
  {
    if i + j + k == 0 then None
    else
      var d := (i + j + k) as real;
      var q := (i - j) as real / d;
      assert -1.0 <= q <= 1.0 by { RatioBounds((i - j) as real, d); }
      Some(q)
  }

  lemma RatioBounds(x: real, d: real)
    requires d > 0.0 && -d <= x <= d
    ensures -1.0 <= x / d <= 1.0
  {
  }

  /** The disruption score of one node. */
  function DisruptionOf(g: Graph, n: Node): (r: Option<real>)
    ensures r.None? <==> |Unique(g, n)| + |Shared(g, n)| + |Secondary(g, n)| == 0
    ensures r.Some? ==> -1.0 <= r.value <= 1.0
  {
    Score(|Unique(g, n)|, |Shared(g, n)|, |Secondary(g, n)|)
  }

  /** The score of every node, keyed by node: undefined exactly for the
      cases that cite nothing and whose citing cases cite nothing else. */
  function Disruptions(g: Graph): (r: map<Node, Option<real>>)
    ensures r.Keys == g.nodes
    ensures forall n :: n in r ==> r[n] == DisruptionOf(g, n)
    ensures forall n :: n in r ==>
              (r[n].None? <==> Succs(g, n) == {} && forall p, o :: p in Preds(g, n) && (p, o) in g.edges ==> o == n)
    ensures forall n :: n in r && r[n].Some? ==> -1.0 <= r[n].value <= 1.0
  {
    var r := map n | n in g.nodes :: DisruptionOf(g, n);
    assert forall n :: n in r ==>
              (r[n].None? <==> Succs(g, n) == {} && forall p, o :: p in Preds(g, n) && (p, o) in g.edges ==> o == n) by {
      forall n | n in r
        ensures r[n].None? <==> Succs(g, n) == {} && forall p, o :: p in Preds(g, n) && (p, o) in g.edges ==> o == n
      {
        Undefined(g, n);
      }
    }
    r
  }

  /** The score is undefined exactly when `n` cites nothing and its citing
      cases cite only `n`: then i, j and k are all empty. */
  lemma Undefined(g: Graph, n: Node)
    ensures DisruptionOf(g, n).None? <==>
            Succs(g, n) == {} && forall p, o :: p in Preds(g, n) && (p, o) in g.edges ==> o == n
  {
    SplitsSuccessors(g, n);
    if Succs(g, n) == {} {
      assert Shared(g, n) == {};
      if exists p, o :: p in Preds(g, n) && (p, o) in g.edges && o != n {
        var p, o :| p in Preds(g, n) && (p, o) in g.edges && o != n;
        assert (p, o) in Secondary(g, n);
      }
    } else {
      var o :| o in Succs(g, n);
      assert o in Unique(g, n) || o in Shared(g, n);
    }
  }

  /** i and j split the cited cases of `n`, so together they count its
      out-degree. */
  lemma SplitsSuccessors(g: Graph, n: Node)
    ensures Unique(g, n) !! Shared(g, n)
    ensures Unique(g, n) + Shared(g, n) == Succs(g, n)
    ensures |Unique(g, n)| + |Shared(g, n)| == Centralities.Degree(g, n, Centralities.Out)
  {
    Centralities.DegreeCountsNeighbours(g, n);
    assert Unique(g, n) + Shared(g, n) == Succs(g, n);
  }

  /** k never holds `n` or a member of j, and holds each other case `o` once
      per citing case of `n` that cites `o`. */
  lemma SecondaryMultiplicity(g: Graph, n: Node, o: Node)
    ensures forall e :: e in Secondary(g, n) ==> e.1 !in Shared(g, n) && e.1 != n
    ensures |set e | e in Secondary(g, n) && e.1 == o| ==
            if o in Shared(g, n) || o == n then 0 else |set p | p in Preds(g, n) && (p, o) in g.edges|
  {
    var hits := set e | e in Secondary(g, n) && e.1 == o;
    if o in Shared(g, n) || o == n {
      assert hits == {};
    } else {
      Centralities.SharedEndCount(hits, o, Centralities.In);
      var citers := set p | p in Preds(g, n) && (p, o) in g.edges;
      assert (set e | e in hits :: Centralities.Opposite(e, Centralities.In)) == citers by {
        forall p | p in citers ensures p in set e | e in hits :: Centralities.Opposite(e, Centralities.In) {
          assert (p, o) in hits;
        }
      }
    }
  }

  /** A case that nobody cites has empty j and k: it scores 1 when it cites
      something and is undefined when isolated. */
  lemma Uncited(g: Graph, n: Node)
    requires Preds(g, n) == {}
    ensures Shared(g, n) == {} && Secondary(g, n) == {}
    ensures Unique(g, n) == Succs(g, n)
    ensures DisruptionOf(g, n) == if Succs(g, n) == {} then None else Some(1.0)
  {
    assert Shared(g, n) == {};
    assert Secondary(g, n) == {};
    assert DisruptionOf(g, n) == Score(|Succs(g, n)|, 0, 0);
    if Succs(g, n) != {} {
      OnlyUnique(|Succs(g, n)|);
    }
  }

  /** With cited cases and nothing shared or secondary, the score is 1. */
  lemma OnlyUnique(i: nat)
    requires i > 0
    ensures Score(i, 0, 0) == Some(1.0)
  {
    assert i as real / i as real == 1.0;
  }

  /** Three cases where A cites B and C, and B cites C. */
  function Triangle(): (g: Graph)
    ensures g.Valid()
  {
    var a, b, c := Text("A"), Text("B"), Text("C");
    Graph({a, b, c}, {(a, b), (a, c), (b, c)}, map[a := map[], b := map[], c := map[]])
  }

  /** On the triangle, A is cited by nobody and cites two cases: it scores 1. */
  lemma TriangleUncitedScoresOne()
    ensures DisruptionOf(Triangle(), Text("A")) == Some(1.0)
  {
    var g, a, b, c := Triangle(), Text("A"), Text("B"), Text("C");
    assert Preds(g, a) == {};
    assert Succs(g, a) == {b, c} by {
      assert (a, b) in g.edges && (a, c) in g.edges;
    }
    Uncited(g, a);
  }

  /** On the triangle, B's only cited case C is also cited by B's citer A,
      so j = [C] and B scores -1. */
  lemma TriangleReinforcingScoresMinusOne()
    ensures DisruptionOf(Triangle(), Text("B")) == Some(-1.0)
  {
    var g, a, b, c := Triangle(), Text("A"), Text("B"), Text("C");
    assert Preds(g, b) == {a} by {
      assert (a, b) in g.edges;
    }
    assert Succs(g, b) == {c} by {
      assert (b, c) in g.edges;
    }
    assert Shared(g, b) == {c} by {
      assert (a, c) in g.edges;
    }
    assert Unique(g, b) == {};
    assert Secondary(g, b) == {};
    assert DisruptionOf(g, b) == Score(0, 1, 0);
  }

  /** On the triangle, C cites nothing and its citers A and B reach only B
      besides C, so k = [B] and C scores 0. */
  lemma TriangleSinkScoresZero()
    ensures DisruptionOf(Triangle(), Text("C")) == Some(0.0)
  {
    var g, a, b, c := Triangle(), Text("A"), Text("B"), Text("C");
    assert Preds(g, c) == {a, b} by {
      assert (a, c) in g.edges && (b, c) in g.edges;
    }
    assert Succs(g, c) == {};
    assert Shared(g, c) == {};
    assert Secondary(g, c) == {(a, b)} by {
      assert (a, b) in g.edges;
    }
    assert DisruptionOf(g, c) == Score(0, 0, 1);
  }

  // ---------------------------------------------------------------------
  // The source's loops
  // ---------------------------------------------------------------------

  predicate NoDuplicates(xs: seq<Node>) {
    forall a, b :: 0 <= a < b < |xs| ==> xs[a] != xs[b]
  }

  lemma {:induction false} DistinctLength(xs: seq<Node>)
    requires NoDuplicates(xs)
    ensures |set x | x in xs| == |xs|
    decreases |xs|
  {
    if |xs| > 0 {
      var init := xs[..|xs| - 1];
      DistinctLength(init);
      assert (set x | x in xs) == (set x | x in init) + {xs[|xs| - 1]};
    }
  }

  /** The elements of `s`, each once, in an unspecified order: the iteration
      order of networkx's adjacency dictionaries. */
  method Enumerate(s: set<Node>) returns (xs: seq<Node>)
    ensures forall x :: x in xs <==> x in s
    ensures NoDuplicates(xs)
  {
    xs := [];
    var rest := s;
    while rest != {}
      invariant rest <= s
      invariant forall x :: x in xs <==> x in s && x !in rest
      invariant NoDuplicates(xs)
      decreases rest
    {
      var x :| x in rest;
      xs := xs + [x];
      rest := rest - {x};
    }
  }

  /** `get_neighbours(G, node)`: the citing and the cited cases of `n`. */
  method Neighbours(g: Graph, n: Node) returns (incoming: seq<Node>, outgoing: seq<Node>)
    ensures forall x :: x in incoming <==> x in Preds(g, n)
    ensures forall x :: x in outgoing <==> x in Succs(g, n)
    ensures NoDuplicates(incoming) && NoDuplicates(outgoing)
  {
    incoming := Enumerate(Preds(g, n));
    outgoing := Enumerate(Succs(g, n));
  }

  /** Some case among `ps` cites `o`. */
  predicate CitedByAny(g: Graph, ps: seq<Node>, o: Node) {
    exists p :: p in ps && (p, o) in g.edges
  }

  /** The first loop of `calculate_disruption`: for every citing case and
      every cited case of `n`, record the cited case in `j` when the citing
      case cites it too and it is not recorded yet. */
  method SharedList(g: Graph, n: Node, incoming: seq<Node>, outgoing: seq<Node>) returns (j: seq<Node>)
    requires forall x :: x in incoming <==> x in Preds(g, n)
    requires forall x :: x in outgoing <==> x in Succs(g, n)
    ensures NoDuplicates(j)
    ensures forall o :: o in j <==> o in Shared(g, n)
  {
    j := [];
    for a := 0 to |incoming|
      invariant NoDuplicates(j)
      invariant forall o :: o in j <==> o in outgoing && CitedByAny(g, incoming[..a], o)
    {
      for b := 0 to |outgoing|
        invariant NoDuplicates(j)
        invariant forall o :: o in j <==>
                    (o in outgoing && (CitedByAny(g, incoming[..a], o) || (o in outgoing[..b] && (incoming[a], o) in g.edges)))
      {
        var o := outgoing[b];
        if (incoming[a], o) in g.edges && o !in j {
          j := j + [o];
        }
        assert outgoing[..b + 1] == outgoing[..b] + [o];
      }
      assert outgoing[..|outgoing|] == outgoing;
      assert incoming[..a + 1] == incoming[..a] + [incoming[a]];
    }
    assert incoming[..|incoming|] == incoming;
  }

  /** The second loop: every cited case of `n` that is not in `j` goes to `i`. */
  method UniqueList(outgoing: seq<Node>, j: seq<Node>) returns (i: seq<Node>)
    requires NoDuplicates(outgoing)
    ensures NoDuplicates(i)
    ensures forall o :: o in i <==> o in outgoing && o !in j
  {
    i := [];
    for b := 0 to |outgoing|
      invariant NoDuplicates(i)
      invariant forall o :: o in i <==> o in outgoing[..b] && o !in j
    {
      var o := outgoing[b];
      if o !in j {
        i := i + [o];
      }
      assert outgoing[..b + 1] == outgoing[..b] + [o];
    }
    assert outgoing[..|outgoing|] == outgoing;
  }

  /** The k-edges that leave the citing cases among `ps`. */
  function SecondaryFrom(g: Graph, n: Node, ps: seq<Node>): set<Edge> {
    set e | e in g.edges && e.0 in ps && e.1 !in Shared(g, n) && e.1 != n
  }

  /** The k-edges from `p` to the cases among `os`. */
  function SecondaryTo(g: Graph, n: Node, p: Node, os: seq<Node>): set<Edge> {
    set o | o in os && o !in Shared(g, n) && o != n :: (p, o)
  }

  lemma SecondaryToSnoc(g: Graph, n: Node, p: Node, os: seq<Node>, o: Node)
    ensures SecondaryTo(g, n, p, os + [o]) ==
            SecondaryTo(g, n, p, os) + if o !in Shared(g, n) && o != n then {(p, o)} else {}
  {
  }

  lemma SecondaryFromSnoc(g: Graph, n: Node, ps: seq<Node>, p: Node, cited: seq<Node>)
    requires forall x :: x in cited <==> x in Succs(g, p)
    ensures SecondaryFrom(g, n, ps + [p]) == SecondaryFrom(g, n, ps) + SecondaryTo(g, n, p, cited)
  {
    forall e | e in SecondaryTo(g, n, p, cited) ensures e in SecondaryFrom(g, n, ps + [p]) {
      assert e.1 in Succs(g, p);
    }
    forall e | e in SecondaryFrom(g, n, ps + [p]) && e !in SecondaryFrom(g, n, ps)
      ensures e in SecondaryTo(g, n, p, cited)
    {
      assert e.0 == p && e.1 in cited;
    }
  }

  /** `k` is `k0` plus one copy of each case among `os` outside `j` other than `n`. */
  ghost predicate AddsKept(k: seq<Node>, k0: seq<Node>, os: seq<Node>, j: seq<Node>, n: Node) {
    forall o :: multiset(k)[o] == multiset(k0)[o] + if o in os && o !in j && o != n then 1 else 0
  }

  lemma AddsKeptStep(k: seq<Node>, k0: seq<Node>, os: seq<Node>, x: Node, j: seq<Node>, n: Node)
    requires x !in os && AddsKept(k, k0, os, j, n)
    ensures AddsKept(if x !in j && x != n then k + [x] else k, k0, os + [x], j, n)
  {
    if x !in j && x != n {
      assert multiset(k + [x]) == multiset(k) + multiset{x};
    }
  }

  /** Appending a new citing case's k-edges to a count of the earlier ones
      gives the count for both. */
  lemma SecondaryCountStep(g: Graph, n: Node, ps: seq<Node>, p: Node, cited: seq<Node>, before: nat, after: nat)
    requires p !in ps && forall x :: x in cited <==> x in Succs(g, p)
    requires before == |SecondaryFrom(g, n, ps)| && after == before + |SecondaryTo(g, n, p, cited)|
    ensures after == |SecondaryFrom(g, n, ps + [p])|
  {
    assert SecondaryFrom(g, n, ps) !! SecondaryTo(g, n, p, cited) by {
      assert forall e :: e in SecondaryFrom(g, n, ps) ==> e.0 != p;
    }
    SecondaryFromSnoc(g, n, ps, p, cited);
  }

  /** The inner part of the third loop, for one citing case `p` with cited
      cases `cited`: append each one outside `j` other than `n`. */
  method AppendSecondary(g: Graph, n: Node, p: Node, cited: seq<Node>, j: seq<Node>, k0: seq<Node>) returns (k: seq<Node>)
    requires NoDuplicates(cited)
    requires forall o :: o in j <==> o in Shared(g, n)
    ensures |k| == |k0| + |SecondaryTo(g, n, p, cited)|
    ensures forall o :: o in k ==> o in k0 || (o !in j && o != n)
    ensures AddsKept(k, k0, cited, j, n)
  {
    k := k0;
    for b := 0 to |cited|
      invariant |k| == |k0| + |SecondaryTo(g, n, p, cited[..b])|
      invariant forall o :: o in k ==> o in k0 || (o !in j && o != n)
      invariant AddsKept(k, k0, cited[..b], j, n)
    {
      var x := cited[b];
      assert cited[..b + 1] == cited[..b] + [x];
      SecondaryToSnoc(g, n, p, cited[..b], x);
      AddsKeptStep(k, k0, cited[..b], x, j, n);
      if x !in j && x != n {
        assert (p, x) !in SecondaryTo(g, n, p, cited[..b]);
        k := k + [x];
      }
    }
    assert cited[..|cited|] == cited;
  }

  /** The citing cases among `ps` that cite `o`. */
  function Citers(g: Graph, ps: seq<Node>, o: Node): set<Node> {
    set p | p in ps && (p, o) in g.edges
  }

  lemma CitersSnoc(g: Graph, ps: seq<Node>, p: Node, o: Node)
    requires p !in ps
    ensures |Citers(g, ps + [p], o)| == |Citers(g, ps, o)| + if (p, o) in g.edges then 1 else 0
  {
    if (p, o) in g.edges {
      assert Citers(g, ps + [p], o) == Citers(g, ps, o) + {p};
    } else {
      assert Citers(g, ps + [p], o) == Citers(g, ps, o);
    }
  }

  /** `k` holds each case outside `j` other than `n` once per citing case
      among `ps` that cites it, and nothing else. */
  ghost predicate CountsCiters(g: Graph, k: seq<Node>, ps: seq<Node>, j: seq<Node>, n: Node) {
    forall o :: multiset(k)[o] == if o in j || o == n then 0 else |Citers(g, ps, o)|
  }

  lemma CountsCitersStep(g: Graph, k: seq<Node>, k0: seq<Node>, ps: seq<Node>, p: Node, cited: seq<Node>, j: seq<Node>, n: Node)
    requires p !in ps && forall x :: x in cited <==> x in Succs(g, p)
    requires CountsCiters(g, k0, ps, j, n) && AddsKept(k, k0, cited, j, n)
    ensures CountsCiters(g, k, ps + [p], j, n)
  {
    forall o ensures multiset(k)[o] == if o in j || o == n then 0 else |Citers(g, ps + [p], o)| {
      CitersSnoc(g, ps, p, o);
      assert o in cited <==> (p, o) in g.edges by {
        if (p, o) in g.edges {
          assert o in Succs(g, p);
        }
      }
    }
  }

  /** The third loop: for every citing case `p` of `n`, append each case `p`
      cites that is outside `j` and is not `n`. */
  method SecondaryList(g: Graph, n: Node, incoming: seq<Node>, j: seq<Node>) returns (k: seq<Node>)
    requires NoDuplicates(incoming)
    requires forall x :: x in incoming <==> x in Preds(g, n)
    requires forall o :: o in j <==> o in Shared(g, n)
    ensures forall o :: o in k ==> o !in j && o != n
    ensures |k| == |Secondary(g, n)|
    ensures CountsCiters(g, k, incoming, j, n)
  {
    k := [];
    for a := 0 to |incoming|
      invariant |k| == |SecondaryFrom(g, n, incoming[..a])|
      invariant CountsCiters(g, k, incoming[..a], j, n)
    {
      var p := incoming[a];
      var _, cited := Neighbours(g, p);
      ghost var k0 := k;
      k := AppendSecondary(g, n, p, cited, j, k);
      assert incoming[..a + 1] == incoming[..a] + [p];
      SecondaryCountStep(g, n, incoming[..a], p, cited, |k0|, |k|);
      CountsCitersStep(g, k, k0, incoming[..a], p, cited, j, n);
    }
    assert incoming[..|incoming|] == incoming;
    assert SecondaryFrom(g, n, incoming) == Secondary(g, n);
    forall o | o in k ensures o !in j && o != n {
      assert multiset(k)[o] > 0;
    }
  }

  /** A list without duplicates that holds exactly the members of `s` is as
      long as `s` is large. */
  lemma ListSize(xs: seq<Node>, s: set<Node>)
    requires NoDuplicates(xs) && forall x :: x in xs <==> x in s
    ensures |xs| == |s|
  {
    DistinctLength(xs);
    assert (set x | x in xs) == s;
  }

  /** The body of `calculate_disruption` for one node: builds the lists
      `i`, `j`, `k` as the source does and returns the guarded ratio. */
  method NodeDisruption(g: Graph, n: Node) returns (i: seq<Node>, j: seq<Node>, k: seq<Node>, score: Option<real>)
    ensures NoDuplicates(j) && forall o :: o in j <==> o in Shared(g, n)
    ensures NoDuplicates(i) && forall o :: o in i <==> o in Unique(g, n)
    ensures forall o :: o in k ==> o !in j && o != n
    ensures |k| == |Secondary(g, n)|
    ensures forall o :: multiset(k)[o] ==
              if o in Shared(g, n) || o == n then 0 else |set p | p in Preds(g, n) && (p, o) in g.edges|
    ensures score == DisruptionOf(g, n)
  {
    var incoming, outgoing := Neighbours(g, n);
    j := SharedList(g, n, incoming, outgoing);
    i := UniqueList(outgoing, j);
    k := SecondaryList(g, n, incoming, j);
    forall o ensures Citers(g, incoming, o) == set p | p in Preds(g, n) && (p, o) in g.edges {
    }
    ListSize(i, Unique(g, n));
    ListSize(j, Shared(g, n));
    score := Score(|i|, |j|, |k|);
  }

  /** `calculate_disruption`: the score of every node. */
  method CalculateDisruption(g: Graph) returns (scores: map<Node, Option<real>>)
    ensures scores.Keys == g.nodes
    ensures forall n :: n in scores ==> scores[n] == DisruptionOf(g, n)
  {
    scores := map[];
    var rest := g.nodes;
    while rest != {}
      invariant rest <= g.nodes
      invariant scores.Keys == g.nodes - rest
      invariant forall n :: n in scores ==> scores[n] == DisruptionOf(g, n)
      decreases rest
    {
      var n :| n in rest;
      var _, _, _, score := NodeDisruption(g, n);
      scores := scores[n := score];
      rest := rest - {n};
    }
  }
}
