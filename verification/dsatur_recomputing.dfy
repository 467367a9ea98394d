/**
 `dsatur_coloring` of the command-line script (chromatic-dsatur.py). Unlike
 the web page it recomputes every saturation from the colouring in each
 round and keeps the uncoloured nodes in a Python `set`; which of several
 equally good nodes it picks depends on that set's iteration order, so the
 choice among them is left open here.
 */
module DsaturRecomputing {
  import opened Collections
  import opened ConflictGraph
  import opened Colouring

  /** Lines 34-42: recompute the saturation of every uncoloured node, keep
      the nodes of largest saturation, and among those take one of largest
      degree. */
  method SelectNext(g: Graph, c: Colouring, uncolored: set<Node>) returns (next: Node)
    requires uncolored != {} && uncolored <= g.adj.Keys
    ensures MostSaturated(g, c, uncolored, next)
  {
    var saturations := map n | n in uncolored :: Saturation(g, c, n);
    assert forall n :: n in uncolored ==> saturations[n] in saturations.Values;
    var maxSat := MaxOf(saturations.Values);
    var candidates := set n | n in uncolored && saturations[n] == maxSat;
    var top :| top in uncolored && saturations[top] == maxSat;
    assert top in candidates;
    var degrees := set n | n in candidates :: Degree(g, n);
    assert forall n :: n in candidates ==> Degree(g, n) in degrees;
    var maxDeg := MaxOf(degrees);
    next :| next in candidates && Degree(g, next) == maxDeg;
    forall m | m in uncolored
      ensures !KeyBelow((Saturation(g, c, next), Degree(g, next)), (Saturation(g, c, m), Degree(g, m)))
    {
      assert saturations[m] <= maxSat;
      if saturations[m] == maxSat {
        assert m in candidates;
      }
    }
  }

  /** The state the loop of lines 32-51 keeps: `uncolored` is exactly the
      nodes not in `coloring`, and the partial colouring is proper with no
      colour above the node's number of neighbours. */
  ghost predicate LoopInv(g: Graph, c: Colouring, uncolored: set<Node>) {
    && Valid(g)
    && c.Keys <= g.adj.Keys
    && uncolored == g.adj.Keys - c.Keys
    && ProperOn(g, c)
    && (forall v :: v in c ==> c[v] <= |g.adj[v]|)
  }

  /** One round, lines 45-51: colour the selected node with the least colour
      none of its coloured neighbours uses, and take it out of `uncolored`. */
  lemma RoundKeepsInv(g: Graph, c: Colouring, uncolored: set<Node>, next: Node)
    requires LoopInv(g, c, uncolored)
    requires next in uncolored
    ensures var colour := FirstFit(NeighbourColours(g, c, next));
      LoopInv(g, c[next := colour], uncolored - {next})
  {
    var colour := FirstFit(NeighbourColours(g, c, next));
    FirstFitKeepsProper(g, c, next);
    FirstFitWithinDegree(g, c, next);
    var c' := c[next := colour];
    forall v | v in c'
      ensures c'[v] <= |g.adj[v]|
    {
      if v != next {
        assert v in c;
      }
    }
  }

  /** `dsatur_coloring(G)` of chromatic-dsatur.py. `num_colors` is
      `max(coloring.values()) + 1`, which raises on an empty graph (the
      script only calls it on a non-empty one); `rounds` counts the passes of
      the outer loop. */
  method Colour(g: Graph) returns (numColours: Result<nat, ColouringError>, coloring: Colouring, rounds: nat)
    requires Valid(g)
    ensures Complete(g, coloring)
    ensures ProperOn(g, coloring)
    ensures rounds == |g.nodes|
    ensures forall v :: v in coloring ==> coloring[v] <= Degree(g, v)
    ensures numColours.Failure? <==> g.nodes == []
    ensures numColours.Success? ==> numColours.value == ColourCount(coloring)
    ensures numColours.Success? ==> numColours.value <= MaxDegree(g) + 1
  {
    coloring := map[];
    var uncolored := g.adj.Keys;
    rounds := 0;
    while uncolored != {}
      invariant LoopInv(g, coloring, uncolored)
      invariant rounds == |coloring|
      decreases |uncolored|
    {
      var next := SelectNext(g, coloring, uncolored);
      var colour := FirstFit(NeighbourColours(g, coloring, next));
      RoundKeepsInv(g, coloring, uncolored, next);
      coloring := coloring[next := colour];
      uncolored := uncolored - {next};
      rounds := rounds + 1;
    }
    Finished(g, coloring);
    numColours := ChromaticNumber(coloring);
    CountsAgree(coloring);
  }

  /** When `uncolored` is empty every node is coloured once, and no colour
      exceeds its node's degree. */
  lemma Finished(g: Graph, c: Colouring)
    requires LoopInv(g, c, {})
    ensures Complete(g, c)
    ensures |c| == |g.nodes|
    ensures forall v :: v in c ==> c[v] <= Degree(g, v)
    ensures ColourCount(c) <= MaxDegree(g) + 1
    ensures c == map[] <==> g.nodes == []
  {
    forall n | n in g.adj
      ensures n in c
    {
      assert n !in g.adj.Keys - c.Keys;
    }
    assert c.Keys == g.adj.Keys;
    NodeCount(g);
    forall v | v in c
      ensures c[v] <= Degree(g, v)
    {
      assert c[v] <= |g.adj[v]|;
    }
    CountWithinMaxDegree(g, c);
  }
}
