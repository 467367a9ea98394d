/**
 `dsatur_coloring` of the DSATUR web page (coloring-dsatur.py). It keeps the
 saturation of every node up to date incrementally: whenever a node gets a
 colour, each neighbour records that colour in its `neighbor_colors` set and
 its saturation becomes the size of that set. The next node is the first
 uncoloured node in node order whose (saturation, degree) pair is largest,
 because Python's `max` keeps the first of equal maxima.
 */
module DsaturIncremental {
  import opened Collections
  import opened ConflictGraph
  import opened Colouring

  /** The loop state: `coloring`, `saturation` and `neighbor_colors`. */
  datatype State = State(
    coloring: Colouring,
    saturation: map<Node, nat>,
    neighbourColours: map<Node, set<nat>>)

  /** The bookkeeping the loop maintains: `neighbor_colors[v]` is the set of
      colours of `v`'s coloured neighbours and `saturation[v]` its size; the
      partial colouring is proper and gives no node a colour above its
      number of neighbours. */
  ghost predicate Inv(g: Graph, s: State) {
    && Valid(g)
    && s.coloring.Keys <= g.adj.Keys
    && s.saturation.Keys == g.adj.Keys
    && s.neighbourColours.Keys == g.adj.Keys
    && Bookkept(g, s)
    && ProperOn(g, s.coloring)
    && (forall v :: v in s.coloring ==> s.coloring[v] <= |g.adj[v]|)
  }

  /** Lines 90-91 and 101-104 keep `neighbor_colors` and `saturation` exact. */
  ghost predicate Bookkept(g: Graph, s: State) {
    && (forall v :: v in s.neighbourColours ==>
          v in g.adj && s.neighbourColours[v] == NeighbourColours(g, s.coloring, v))
    && (forall v :: v in s.saturation ==>
          v in s.neighbourColours && s.saturation[v] == |s.neighbourColours[v]|)
  }

  /** Lines 89-91: nothing coloured, every saturation 0, every set empty. */
  function Init(g: Graph): (s: State)
    requires Valid(g)
    ensures Inv(g, s)
    ensures s.coloring == map[]
  {
    State(map[], map n | n in g.adj :: 0, map n | n in g.adj :: {})
  }

  /** Every node in node order has a degree and a saturation entry. */
  ghost predicate Keyed(g: Graph, s: State) {
    forall j :: 0 <= j < |g.nodes| ==> g.nodes[j] in g.adj && g.nodes[j] in s.saturation
  }

  lemma InvKeyed(g: Graph, s: State)
    requires Inv(g, s)
    ensures Keyed(g, s)
  {
    forall j | 0 <= j < |g.nodes|
      ensures g.nodes[j] in g.adj && g.nodes[j] in s.saturation
    {
      assert g.nodes[j] in g.nodes;
    }
  }

  /** The selection key `(saturation[n], G.degree[n])`. */
  function Key(g: Graph, s: State, n: Node): (nat, nat)
    requires n in g.adj && n in s.saturation
  {
    (s.saturation[n], Degree(g, n))
  }

  ghost predicate Uncoloured(g: Graph, s: State, j: int) {
    0 <= j < |g.nodes| && g.nodes[j] !in s.coloring
  }

  /** `max(uncolored, key=...)` over the uncoloured nodes among the first `k`
      in node order: scanning left to right, a node replaces the current best
      only when its key is strictly larger, so the result is the FIRST node
      with a largest key. `None` when all of the first `k` are coloured. */
  function BestAmong(g: Graph, s: State, k: nat): (b: Option<nat>)
    requires Keyed(g, s)
    requires k <= |g.nodes|
    ensures b.None? <==> forall j :: 0 <= j < k ==> !Uncoloured(g, s, j)
    ensures b.Some? ==> b.value < k && Uncoloured(g, s, b.value)
    ensures b.Some? ==> forall j :: 0 <= j < k && Uncoloured(g, s, j) ==>
      !KeyBelow(Key(g, s, g.nodes[b.value]), Key(g, s, g.nodes[j]))
    ensures b.Some? ==> forall j :: 0 <= j < b.value && Uncoloured(g, s, j) ==>
      KeyBelow(Key(g, s, g.nodes[j]), Key(g, s, g.nodes[b.value]))
  {
    if k == 0 then None
    else
      var prev := BestAmong(g, s, k - 1);
      var n := g.nodes[k - 1];
      if n in s.coloring then prev
      else
        assert Uncoloured(g, s, k - 1);
        if prev.None? then Some(k - 1)
      else if KeyBelow(Key(g, s, g.nodes[prev.value]), Key(g, s, n)) then Some(k - 1)
      else prev
  }

  /** While fewer nodes are coloured than the graph has, some node is not. */
  lemma SomeUncoloured(g: Graph, s: State)
    requires Valid(g)
    requires s.coloring.Keys <= g.adj.Keys
    requires |s.coloring| < |g.nodes|
    ensures exists j :: Uncoloured(g, s, j)
  {
    NodeCount(g);
    assert s.coloring.Keys != g.adj.Keys;
    assert exists n :: n in g.adj.Keys && n !in s.coloring.Keys;
    var n :| n in g.adj.Keys && n !in s.coloring.Keys;
    assert n in g.nodes;
    var j :| 0 <= j < |g.nodes| && g.nodes[j] == n;
    assert Uncoloured(g, s, j);
  }

  /** Line 95: the index (in node order) of the node coloured next. */
  function Chosen(g: Graph, s: State): (i: nat)
    requires Inv(g, s)
    requires |s.coloring| < |g.nodes|
    ensures Uncoloured(g, s, i)
    ensures forall j :: Uncoloured(g, s, j) ==>
      !KeyBelow(Key(g, s, g.nodes[i]), Key(g, s, g.nodes[j]))
    ensures forall j :: 0 <= j < i && Uncoloured(g, s, j) ==>
      KeyBelow(Key(g, s, g.nodes[j]), Key(g, s, g.nodes[i]))
  {
    SomeUncoloured(g, s);
    InvKeyed(g, s);
    BestAmong(g, s, |g.nodes|).value
  }

  /** The incremental saturations agree with recomputing them from the
      colouring, so the node chosen at line 95 is a DSATUR choice in the
      sense of the recomputing colourer, namely the first such node in node
      order. */
  lemma ChosenIsMostSaturated(g: Graph, s: State)
    requires Inv(g, s)
    requires |s.coloring| < |g.nodes|
    ensures MostSaturated(g, s.coloring, g.adj.Keys - s.coloring.Keys, g.nodes[Chosen(g, s)])
    ensures forall j :: 0 <= j < Chosen(g, s) && g.nodes[j] !in s.coloring ==>
      !MostSaturated(g, s.coloring, g.adj.Keys - s.coloring.Keys, g.nodes[j])
  {
    SaturationsExact(g, s);
    InvKeyed(g, s);
    NodeOrderComplete(g);
    FirstOfMaxima(g, s, Chosen(g, s));
  }

  /** `saturation[v]` is the saturation degree recomputed from scratch. */
  lemma SaturationsExact(g: Graph, s: State)
    requires Inv(g, s)
    ensures forall m :: m in g.adj ==> m in s.saturation && s.saturation[m] == Saturation(g, s.coloring, m)
  {
  }

  lemma FirstOfMaxima(g: Graph, s: State, i: nat)
    requires Keyed(g, s)
    requires g.adj.Keys == set x | x in g.nodes
    requires forall m :: m in g.adj ==> m in s.saturation && s.saturation[m] == Saturation(g, s.coloring, m)
    requires Uncoloured(g, s, i)
    requires forall j :: Uncoloured(g, s, j) ==>
      !KeyBelow(Key(g, s, g.nodes[i]), Key(g, s, g.nodes[j]))
    requires forall j :: 0 <= j < i && Uncoloured(g, s, j) ==>
      KeyBelow(Key(g, s, g.nodes[j]), Key(g, s, g.nodes[i]))
    ensures MostSaturated(g, s.coloring, g.adj.Keys - s.coloring.Keys, g.nodes[i])
    ensures forall j :: 0 <= j < i && g.nodes[j] !in s.coloring ==>
      !MostSaturated(g, s.coloring, g.adj.Keys - s.coloring.Keys, g.nodes[j])
  {
    var U := g.adj.Keys - s.coloring.Keys;
    forall m | m in U
      ensures !KeyBelow(Key(g, s, g.nodes[i]), Key(g, s, m))
    {
      var j :| 0 <= j < |g.nodes| && g.nodes[j] == m;
      assert Uncoloured(g, s, j);
    }
    forall j | 0 <= j < i && g.nodes[j] !in s.coloring
      ensures !MostSaturated(g, s.coloring, U, g.nodes[j])
    {
      assert Uncoloured(g, s, j);
      assert g.nodes[i] in U;
    }
  }

  /** One pass of the loop body, lines 94-104: pick the node, give it its
      first-fit colour, and record the colour with each neighbour. The guard
      `if node in coloring` of line 102 holds right after line 100, so every
      neighbour is updated. */
  function Step(g: Graph, s: State): (r: State)
    requires Inv(g, s)
    requires |s.coloring| < |g.nodes|
    ensures Inv(g, r)
    ensures |r.coloring| == |s.coloring| + 1
    ensures var n := g.nodes[Chosen(g, s)];
      r.coloring == s.coloring[n := FirstFit(NeighbourColours(g, s.coloring, n))]
    ensures forall v :: v in s.saturation ==> s.saturation[v] <= r.saturation[v]
  {
    var node := g.nodes[Chosen(g, s)];
    StepKeepsInv(g, s, node, FirstFit(NeighbourColours(g, s.coloring, node)));
    Record(g, s, node, FirstFit(NeighbourColours(g, s.coloring, node)))
  }

  /** Lines 100-104: `node` gets `colour`, and each neighbour of `node` adds
      `colour` to its neighbour colours and refreshes its saturation. */
  function Record(g: Graph, s: State, node: Node, colour: nat): (r: State)
    requires node in g.adj
    ensures r.coloring == s.coloring[node := colour]
    ensures r.saturation.Keys == s.saturation.Keys
    ensures r.neighbourColours.Keys == s.neighbourColours.Keys
  {
    var nc := map v | v in s.neighbourColours ::
      if v in g.adj[node] then s.neighbourColours[v] + {colour} else s.neighbourColours[v];
    var sat := map v | v in s.saturation ::
      if v in g.adj[node] && v in nc then |nc[v]| else s.saturation[v];
    State(s.coloring[node := colour], sat, nc)
  }

  /** Colouring `node` adds its colour to the neighbour colours of exactly
      the nodes adjacent to it. */
  lemma NeighbourColoursAfter(g: Graph, c: Colouring, node: Node, colour: nat, v: Node)
    requires Valid(g)
    requires node in g.adj && node !in c && v in g.adj
    ensures v in g.adj[node] ==>
      NeighbourColours(g, c[node := colour], v) == NeighbourColours(g, c, v) + {colour}
    ensures v !in g.adj[node] ==>
      NeighbourColours(g, c[node := colour], v) == NeighbourColours(g, c, v)
  {
    var c' := c[node := colour];
    if v in g.adj[node] {
      assert node in g.adj[v];
      assert colour in NeighbourColours(g, c', v);
    } else {
      assert node !in g.adj[v];
    }
  }

  lemma StepKeepsInv(g: Graph, s: State, node: Node, colour: nat)
    requires Inv(g, s)
    requires node in g.adj && node !in s.coloring
    requires colour == FirstFit(NeighbourColours(g, s.coloring, node))
    ensures Inv(g, Record(g, s, node, colour))
    ensures forall v :: v in s.saturation ==> s.saturation[v] <= Record(g, s, node, colour).saturation[v]
  {
    var r := Record(g, s, node, colour);
    RecordKeepsBookkept(g, s, node, colour);
    FirstFitKeepsProper(g, s.coloring, node);
    assert ProperOn(g, r.coloring);
    FirstFitWithinDegree(g, s.coloring, node);
    assert r.coloring.Keys <= g.adj.Keys;
    forall v | v in r.coloring
      ensures r.coloring[v] <= |g.adj[v]|
    {
      if v != node {
        assert v in s.coloring;
      }
    }
  }

  /** Recording a colour keeps the neighbour colours and saturations exact,
      and no saturation goes down. */
  lemma RecordKeepsBookkept(g: Graph, s: State, node: Node, colour: nat)
    requires Valid(g)
    requires node in g.adj && node !in s.coloring
    requires Bookkept(g, s)
    ensures Bookkept(g, Record(g, s, node, colour))
    ensures forall v :: v in s.saturation ==> s.saturation[v] <= Record(g, s, node, colour).saturation[v]
  {
    var r := Record(g, s, node, colour);
    forall v | v in r.neighbourColours
      ensures v in g.adj && r.neighbourColours[v] == NeighbourColours(g, r.coloring, v)
    {
      NeighbourColoursAfter(g, s.coloring, node, colour, v);
    }
    forall v | v in s.saturation
      ensures s.saturation[v] <= r.saturation[v]
    {
      if v in g.adj[node] {
        SubsetCard(s.neighbourColours[v], r.neighbourColours[v]);
      }
    }
  }

  /** When the loop exits every node is coloured, and the bookkeeping
      yields the promised bounds. */
  lemma Finished(g: Graph, s: State)
    requires Inv(g, s)
    requires |s.coloring| >= |g.nodes|
    ensures Complete(g, s.coloring)
    ensures |s.coloring| == |g.nodes|
    ensures ProperOn(g, s.coloring)
    ensures forall v :: v in s.coloring ==> s.coloring[v] <= Degree(g, v)
    ensures ColourCount(s.coloring) <= MaxDegree(g) + 1
    ensures s.coloring == map[] <==> g.nodes == []
  {
    NodeCount(g);
    SubsetFull(s.coloring.Keys, g.adj.Keys);
    CountWithinMaxDegree(g, s.coloring);
  }

  /** `dsatur_coloring(G)`: returns the chromatic number (or the error `max`
      raises on an empty graph) and the colouring. `rounds` counts the
      passes of the `while` loop. */
  method Colour(g: Graph) returns (count: Result<nat, ColouringError>, coloring: Colouring, rounds: nat)
    requires Valid(g)
    ensures Complete(g, coloring)
    ensures ProperOn(g, coloring)
    ensures rounds == |g.nodes|
    ensures forall v :: v in coloring ==> coloring[v] <= Degree(g, v)
    ensures count.Failure? <==> g.nodes == []
    ensures count.Success? ==> count.value == ColourCount(coloring)
    ensures count.Success? ==> count.value <= MaxDegree(g) + 1
  {
    var s := Init(g);
    rounds := 0;
    while |s.coloring| < |g.nodes|
      invariant Inv(g, s)
      invariant rounds == |s.coloring|
      decreases |g.nodes| - |s.coloring|
    {
      s := Step(g, s);
      rounds := rounds + 1;
    }
    Finished(g, s);
    coloring := s.coloring;
    count := ChromaticNumber(coloring);
    CountsAgree(coloring);
  }
}
