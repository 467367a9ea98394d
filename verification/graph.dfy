/**
 The conflict graph: courses (identified by their code) are nodes, and two
 courses that may not share a time slot are joined by an edge. The graph is
 built from the list of conflict pairs exactly the way `networkx.Graph`
 builds it from `add_edges_from`: every endpoint becomes a node (in order of
 first appearance), and each unordered pair becomes one edge however often it
 is listed and in whichever orientation.
 */
module ConflictGraph {
  import opened Collections

  /** A course code (`MataKuliah.kode`). */
  type Node = string

  /** `nodes` is the node order of the graph (insertion order), `adj` the
      neighbour sets. A self-loop `(a, a)` is representable, as in networkx. */
  datatype Graph = Graph(nodes: seq<Node>, adj: map<Node, set<Node>>)

  /** The representation invariant of an undirected simple graph. */
  ghost predicate Valid(g: Graph) {
    && Distinct(g.nodes)
    && (forall n :: n in g.adj <==> n in g.nodes)
    && (forall u, v {:trigger v in g.adj[u]} :: u in g.adj && v in g.adj[u] ==> v in g.adj && u in g.adj[v])
  }

  predicate Adjacent(g: Graph, u: Node, v: Node) {
    u in g.adj && v in g.adj[u]
  }

  /** Node degree as networkx counts it: a self-loop contributes two. */
  function Degree(g: Graph, n: Node): (d: nat)
    requires n in g.adj
    ensures |g.adj[n]| <= d <= |g.adj[n]| + 1
    ensures d > |g.adj[n]| <==> n in g.adj[n]
  {
    |g.adj[n]| + if n in g.adj[n] then 1 else 0
  }

  /** Every other neighbour adds one to the degree and a self-loop adds
      two. */
  lemma DegreeCountsLoopTwice(g: Graph, n: Node)
    requires n in g.adj
    ensures Degree(g, n) == |g.adj[n] - {n}| + (if n in g.adj[n] then 2 else 0)
  {
    if n in g.adj[n] {
      assert g.adj[n] == (g.adj[n] - {n}) + {n};
    } else {
      assert g.adj[n] - {n} == g.adj[n];
    }
  }

  /** The largest degree in the graph; 0 for the empty graph. */
  function MaxDegree(g: Graph): (d: nat)
    ensures forall n :: n in g.adj ==> Degree(g, n) <= d
    ensures g.adj == map[] ==> d == 0
    ensures g.adj != map[] ==> exists n :: n in g.adj && Degree(g, n) == d
  {
    if g.adj == map[] then 0
    else
      var degrees := set n | n in g.adj :: Degree(g, n);
      assert exists n :: n in g.adj;
      assert forall n :: n in g.adj ==> Degree(g, n) in degrees;
      MaxOf(degrees)
  }

  /** The node order lists exactly the nodes of the graph. */
  lemma NodeOrderComplete(g: Graph)
    requires Valid(g)
    ensures g.adj.Keys == set x | x in g.nodes
  {
  }

  /** A node set has as many elements as the node order lists. */
  lemma NodeCount(g: Graph)
    requires Valid(g)
    ensures |g.adj.Keys| == |g.nodes|
  {
    DistinctCard(g.nodes);
    NodeOrderComplete(g);
  }

  function EmptyGraph(): (g: Graph)
    ensures Valid(g)
    ensures g.adj.Keys == {}
  {
    Graph([], map[])
  }

  /** `G.add_node(n)`: no effect when `n` is already a node. */
  function AddNode(g: Graph, n: Node): (r: Graph)
    requires Valid(g)
    ensures Valid(r)
    ensures r.adj.Keys == g.adj.Keys + {n}
    ensures forall a, b :: Adjacent(r, a, b) <==> Adjacent(g, a, b)
    ensures g.nodes <= r.nodes
    ensures r.nodes == g.nodes + (if n in g.adj then [] else [n])
  {
    if n in g.adj then g
    else Graph(g.nodes + [n], g.adj[n := {}])
  }

  /** `G.add_edge(u, v)`: adds the endpoints that are missing (first `u`,
      then `v`) and joins them; an existing edge is left as it is. */
  function AddEdge(g: Graph, u: Node, v: Node): (r: Graph)
    requires Valid(g)
    ensures Valid(r)
    ensures r.adj.Keys == g.adj.Keys + {u, v}
    ensures g.nodes <= r.nodes
    ensures r.nodes == g.nodes + (if u in g.adj then [] else [u])
                               + (if v in g.adj || v == u then [] else [v])
  {
    Join(AddNode(AddNode(g, u), v), u, v)
  }

  /** After `G.add_edge(u, v)` the adjacent pairs are the old ones and the
      new edge in both orientations. */
  lemma AddEdgeAdjacent(g: Graph, u: Node, v: Node)
    requires Valid(g)
    ensures forall a, b :: Adjacent(AddEdge(g, u, v), a, b) <==>
      Adjacent(g, a, b) || (a == u && b == v) || (a == v && b == u)
  {
    var g2 := AddNode(AddNode(g, u), v);
    assert forall a, b :: Adjacent(g2, a, b) <==> Adjacent(g, a, b);
  }

  /** Joins two existing nodes. */
  function Join(g: Graph, u: Node, v: Node): (r: Graph)
    requires Valid(g)
    requires u in g.adj && v in g.adj
    ensures Valid(r)
    ensures r.adj.Keys == g.adj.Keys
    ensures forall a, b :: Adjacent(r, a, b) <==>
      Adjacent(g, a, b) || (a == u && b == v) || (a == v && b == u)
    ensures r.nodes == g.nodes
  {
    var adj := map a | a in g.adj ::
      g.adj[a] + (if a == u then {v} else {}) + (if a == v then {u} else {});
    assert adj.Keys == g.adj.Keys;
    Graph(g.nodes, adj)
  }

  /** Some listed pair has `n` as an endpoint. */
  ghost predicate Mentioned(pairs: seq<(Node, Node)>, n: Node) {
    exists i :: 0 <= i < |pairs| && (pairs[i].0 == n || pairs[i].1 == n)
  }

  /** The unordered pair `{a, b}` is listed, in either orientation. */
  ghost predicate Listed(pairs: seq<(Node, Node)>, a: Node, b: Node) {
    exists i :: 0 <= i < |pairs| && (pairs[i] == (a, b) || pairs[i] == (b, a))
  }

  /** `G = nx.Graph(); G.add_edges_from(pairs)`. The nodes are exactly the
      endpoints of the pairs and two nodes are adjacent exactly when the pair
      is listed in either orientation. */
  function BuildGraph(pairs: seq<(Node, Node)>): (g: Graph)
    ensures Valid(g)
    ensures forall n :: n in g.adj <==> Mentioned(pairs, n)
    ensures forall a, b :: Adjacent(g, a, b) <==> Listed(pairs, a, b)
    ensures g.nodes == FirstOccurrences(Endpoints(pairs))
  {
    if pairs == [] then EmptyGraph()
    else
      var init := pairs[..|pairs| - 1];
      var last := pairs[|pairs| - 1];
      assert pairs == init + [last];
      var g0 := BuildGraph(init);
      BuildStep(g0, init, last);
      BuildOrderStep(g0, init, last);
      AddEdge(g0, last.0, last.1)
  }

  /** The endpoints of the pairs in listing order, each pair's first endpoint
      before its second. */
  function Endpoints(pairs: seq<(Node, Node)>): seq<Node> {
    if pairs == [] then []
    else Endpoints(pairs[..|pairs| - 1]) + [pairs[|pairs| - 1].0, pairs[|pairs| - 1].1]
  }

  /** The elements of `xs` in the order they first occur, each once. */
  function FirstOccurrences(xs: seq<Node>): seq<Node> {
    if xs == [] then []
    else
      var seen := FirstOccurrences(xs[..|xs| - 1]);
      if xs[|xs| - 1] in seen then seen else seen + [xs[|xs| - 1]]
  }

  /** Two more endpoints extend the first occurrences by those of them not
      seen before, in order. */
  lemma FirstOccurrencesSnoc2(xs: seq<Node>, a: Node, b: Node)
    ensures FirstOccurrences(xs + [a, b]) ==
      FirstOccurrences(xs) + (if a in FirstOccurrences(xs) then [] else [a])
                           + (if b in FirstOccurrences(xs) || b == a then [] else [b])
  {
    assert (xs + [a, b])[..|xs| + 1] == xs + [a];
    assert (xs + [a])[..|xs|] == xs;
  }

  /** One `add_edge` appends the new endpoints to the node order exactly as
      first occurrences do. */
  lemma BuildOrderStep(g0: Graph, init: seq<(Node, Node)>, last: (Node, Node))
    requires Valid(g0)
    requires g0.nodes == FirstOccurrences(Endpoints(init))
    ensures AddEdge(g0, last.0, last.1).nodes == FirstOccurrences(Endpoints(init + [last]))
  {
    assert (init + [last])[..|init|] == init;
    assert Endpoints(init + [last]) == Endpoints(init) + [last.0, last.1];
    FirstOccurrencesSnoc2(Endpoints(init), last.0, last.1);
  }

  /** One `add_edge` extends the characterisation from a prefix of the pairs
      to the prefix one longer. */
  lemma BuildStep(g0: Graph, init: seq<(Node, Node)>, last: (Node, Node))
    requires Valid(g0)
    requires forall n :: n in g0.adj <==> Mentioned(init, n)
    requires forall a, b :: Adjacent(g0, a, b) <==> Listed(init, a, b)
    ensures forall n :: n in AddEdge(g0, last.0, last.1).adj <==> Mentioned(init + [last], n)
    ensures forall a, b :: Adjacent(AddEdge(g0, last.0, last.1), a, b) <==> Listed(init + [last], a, b)
  {
    MentionedSnoc(init, last);
    ListedSnoc(init, last);
    AddEdgeAdjacent(g0, last.0, last.1);
  }

  /** No node of the built graph is isolated: every course in the graph
      conflicts with at least one other course (or with itself). */
  lemma NoIsolatedNodes(pairs: seq<(Node, Node)>)
    ensures forall n :: n in BuildGraph(pairs).adj ==> BuildGraph(pairs).adj[n] != {}
  {
    var g := BuildGraph(pairs);
    forall n | n in g.adj
      ensures g.adj[n] != {}
    {
      HasNeighbour(pairs, g, n);
    }
  }

  /** The built graph has no node exactly when there is no conflict pair. */
  lemma BuildGraphEmpty(pairs: seq<(Node, Node)>)
    ensures BuildGraph(pairs).nodes == [] <==> pairs == []
  {
    var g := BuildGraph(pairs);
    if pairs != [] {
      assert Mentioned(pairs, pairs[0].0);
      assert pairs[0].0 in g.nodes;
    }
  }

  lemma HasNeighbour(pairs: seq<(Node, Node)>, g: Graph, n: Node)
    requires Mentioned(pairs, n)
    requires forall a, b :: Listed(pairs, a, b) ==> Adjacent(g, a, b)
    ensures n in g.adj && g.adj[n] != {}
  {
    var i :| 0 <= i < |pairs| && (pairs[i].0 == n || pairs[i].1 == n);
    var m := if pairs[i].0 == n then pairs[i].1 else pairs[i].0;
    assert Listed(pairs, n, m);
    assert Adjacent(g, n, m);
  }

  lemma MentionedSnoc(init: seq<(Node, Node)>, last: (Node, Node))
    ensures forall n :: Mentioned(init + [last], n) <==>
      Mentioned(init, n) || n == last.0 || n == last.1
  {
    var pairs := init + [last];
    forall n
      ensures Mentioned(pairs, n) <==> Mentioned(init, n) || n == last.0 || n == last.1
    {
      if Mentioned(init, n) {
        var i :| 0 <= i < |init| && (init[i].0 == n || init[i].1 == n);
        assert pairs[i] == init[i];
      }
      if n == last.0 || n == last.1 {
        assert pairs[|init|] == last;
      }
      if Mentioned(pairs, n) {
        var i :| 0 <= i < |pairs| && (pairs[i].0 == n || pairs[i].1 == n);
        if i < |init| {
          assert init[i] == pairs[i];
        }
      }
    }
  }

  lemma ListedSnoc(init: seq<(Node, Node)>, last: (Node, Node))
    ensures forall a, b :: Listed(init + [last], a, b) <==>
      Listed(init, a, b) || (a, b) == last || (b, a) == last
  {
    var pairs := init + [last];
    forall a, b
      ensures Listed(pairs, a, b) <==> Listed(init, a, b) || (a, b) == last || (b, a) == last
    {
      if Listed(init, a, b) {
        var i :| 0 <= i < |init| && (init[i] == (a, b) || init[i] == (b, a));
        assert pairs[i] == init[i];
      }
      if (a, b) == last || (b, a) == last {
        assert pairs[|init|] == last;
      }
      if Listed(pairs, a, b) {
        var i :| 0 <= i < |pairs| && (pairs[i] == (a, b) || pairs[i] == (b, a));
        if i < |init| {
          assert init[i] == pairs[i];
        }
      }
    }
  }

  /** When every pair joins two different courses (the conflict queries only
      pair `c1` with `c2` when `c1.kode < c2.kode`), the graph has no self-loop. */
  lemma LooplessWhenPairsDistinct(pairs: seq<(Node, Node)>)
    requires forall i :: 0 <= i < |pairs| ==> pairs[i].0 != pairs[i].1
    ensures forall n :: !Adjacent(BuildGraph(pairs), n, n)
  {
  }

  /** Listing a pair again, in the same or the reverse orientation, leaves the
      graph exactly as it was: one edge per unordered pair. */
  lemma {:induction false} RepeatedPairCollapses(pairs: seq<(Node, Node)>, a: Node, b: Node)
    requires Listed(pairs, a, b)
    ensures BuildGraph(pairs + [(a, b)]) == BuildGraph(pairs)
    ensures BuildGraph(pairs + [(b, a)]) == BuildGraph(pairs)
  {
    var g := BuildGraph(pairs);
    assert Adjacent(g, a, b) && Adjacent(g, b, a);
    assert (pairs + [(a, b)])[..|pairs|] == pairs;
    assert (pairs + [(b, a)])[..|pairs|] == pairs;
    AddExistingEdge(g, a, b);
    AddExistingEdge(g, b, a);
  }

  lemma AddExistingEdge(g: Graph, u: Node, v: Node)
    requires Valid(g)
    requires Adjacent(g, u, v)
    ensures AddEdge(g, u, v) == g
  {
    assert v in g.adj && u in g.adj[v];
    assert AddNode(AddNode(g, u), v) == g;
    var r := Join(g, u, v);
    forall a | a in g.adj
      ensures r.adj[a] == g.adj[a]
    {
      assert a == u ==> v in g.adj[a];
      assert a == v ==> u in g.adj[a];
    }
    assert r.adj == g.adj;
  }
}
