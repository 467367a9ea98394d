/**
 Colourings of the conflict graph. A colour is a slot index; a colouring maps
 each course to its slot. This module holds what both DSATUR colourers and
 the greedy page share: the colours seen around a node, the first-fit colour,
 properness, and the two ways the source turns a colouring into a colour count.
 */
module Colouring {
  import opened Collections
  import opened ConflictGraph

  type Colouring = map<Node, nat>

  /** Distinct colours among the already coloured neighbours of `v`
      (`{coloring[n] for n in G.neighbors(v) if n in coloring}`). */
  function NeighbourColours(g: Graph, c: Colouring, v: Node): (used: set<nat>)
    requires v in g.adj
    ensures forall n :: n in g.adj[v] && n in c ==> c[n] in used
    ensures forall k :: k in used ==> exists n :: n in g.adj[v] && n in c && c[n] == k
  {
    set n | n in g.adj[v] && n in c :: c[n]
  }

  /** The saturation degree of `v`: how many distinct colours its coloured
      neighbours use. */
  function Saturation(g: Graph, c: Colouring, v: Node): (k: nat)
    requires v in g.adj
    ensures k <= |g.adj[v]|
  {
    NeighbourColoursBound(g, c, v);
    |NeighbourColours(g, c, v)|
  }

  /** Python's tuple order on `(saturation, degree)` keys: `a < b`
      lexicographically. */
  predicate KeyBelow(a: (nat, nat), b: (nat, nat)) {
    a.0 < b.0 || (a.0 == b.0 && a.1 < b.1)
  }

  /** The DSATUR selection rule: `n` is one of the nodes `U` still to be
      coloured, and no node of `U` has a larger (saturation, degree) key. */
  ghost predicate MostSaturated(g: Graph, c: Colouring, U: set<Node>, n: Node)
    requires U <= g.adj.Keys
  {
    n in U && forall m :: m in U ==>
      !KeyBelow((Saturation(g, c, n), Degree(g, n)), (Saturation(g, c, m), Degree(g, m)))
  }

  /** All DSATUR choices carry the same key: they differ only by how ties
      are broken. */
  lemma MostSaturatedShareKey(g: Graph, c: Colouring, U: set<Node>, a: Node, b: Node)
    requires U <= g.adj.Keys
    requires MostSaturated(g, c, U, a) && MostSaturated(g, c, U, b)
    ensures Saturation(g, c, a) == Saturation(g, c, b)
    ensures Degree(g, a) == Degree(g, b)
  {
  }

  /** No two different adjacent coloured courses share a colour. */
  ghost predicate ProperOn(g: Graph, c: Colouring) {
    forall u, v {:trigger v in g.adj[u]} ::
      u in g.adj && v in g.adj[u] && u in c && v in c && u != v ==> c[u] != c[v]
  }

  /** Every node of the graph is coloured, and nothing else is. */
  ghost predicate Complete(g: Graph, c: Colouring) {
    c.Keys == g.adj.Keys
  }

  /** `color = 0; while color in used: color += 1`: the least colour that
      `used` does not contain. It never exceeds the number of used colours. */
  function FirstFit(used: set<nat>): (k: nat)
    ensures k !in used
    ensures forall j :: 0 <= j < k ==> j in used
    ensures k <= |used|
  {
    FirstFitFrom(used, 0)
  }

  function FirstFitFrom(used: set<nat>, k: nat): (r: nat)
    requires forall j :: 0 <= j < k ==> j in used
    ensures k <= r
    ensures r !in used
    ensures forall j :: 0 <= j < r ==> j in used
    ensures r <= |used|
    decreases |used| - k
  {
    PrefixBound(used, k);
    if k in used then
      PrefixBound(used, k + 1);
      FirstFitFrom(used, k + 1)
    else k
  }

  /** The first-fit colour of `v` is at most its number of neighbours. */
  lemma FirstFitWithinDegree(g: Graph, c: Colouring, v: Node)
    requires v in g.adj
    ensures FirstFit(NeighbourColours(g, c, v)) <= |g.adj[v]|
    ensures |g.adj[v]| <= Degree(g, v)
  {
    NeighbourColoursBound(g, c, v);
  }

  lemma NeighbourColoursBound(g: Graph, c: Colouring, v: Node)
    requires v in g.adj
    ensures |NeighbourColours(g, c, v)| <= |g.adj[v]|
  {
    ImageCard(g.adj[v], c, NeighbourColours(g, c, v));
  }

  /** Colouring `v` with its first-fit colour keeps a proper colouring proper. */
  lemma FirstFitKeepsProper(g: Graph, c: Colouring, v: Node)
    requires Valid(g)
    requires v in g.adj && v !in c
    requires ProperOn(g, c)
    ensures ProperOn(g, c[v := FirstFit(NeighbourColours(g, c, v))])
  {
    var k := FirstFit(NeighbourColours(g, c, v));
    var c' := c[v := k];
    forall a, b | a in c' && b in c' && Adjacent(g, a, b) && a != b
      ensures c'[a] != c'[b]
    {
      if a == v {
        assert c[b] in NeighbourColours(g, c, v);
      } else if b == v {
        assert Adjacent(g, v, a);
        assert c[a] in NeighbourColours(g, c, v);
      }
    }
  }

  /** Why `max(coloring.values()) + 1` can fail: `max` of an empty sequence. */
  datatype ColouringError = NoColours

  /** `chromatic_number = max(coloring.values()) + 1` as the DSATUR page
      writes it: it raises on an empty colouring. Otherwise it is one more
      than the largest colour in use. */
  function ChromaticNumber(c: Colouring): (r: Result<nat, ColouringError>)
    ensures r.Failure? <==> c == map[]
    ensures r.Success? ==> forall n :: n in c ==> c[n] < r.value
    ensures r.Success? ==> exists n :: n in c && c[n] + 1 == r.value
  {
    if c == map[] then Failure(NoColours)
    else
      assert exists n :: n in c;
      assert forall n :: n in c ==> c[n] in c.Values;
      Success(MaxOf(c.Values) + 1)
  }

  /** `max(coloring.values()) + 1 if coloring else 0` as the greedy page
      writes it: an empty colouring uses no colour. */
  function ColourCount(c: Colouring): (k: nat)
    ensures c == map[] ==> k == 0
    ensures forall n :: n in c ==> c[n] < k
    ensures c != map[] ==> exists n :: n in c && c[n] + 1 == k
  {
    if c == map[] then 0
    else
      assert exists n :: n in c;
      assert forall n :: n in c ==> c[n] in c.Values;
      MaxOf(c.Values) + 1
  }

  /** The guarded count agrees with the raising one wherever the latter is
      defined, and is 0 exactly where the latter raises. */
  lemma CountsAgree(c: Colouring)
    ensures ChromaticNumber(c).Success? ==> ChromaticNumber(c).value == ColourCount(c)
    ensures ChromaticNumber(c).Failure? <==> ColourCount(c) == 0
  {
    if c != map[] {
      var n :| n in c && c[n] + 1 == ColourCount(c);
      var m :| m in c && c[m] + 1 == ChromaticNumber(c).value;
      assert c[n] < ChromaticNumber(c).value;
      assert c[m] < ColourCount(c);
    }
  }

  /** If no course gets a colour above its degree, the colour count is at most
      the maximum degree plus one. */
  lemma CountWithinMaxDegree(g: Graph, c: Colouring)
    requires Complete(g, c)
    requires forall v :: v in c ==> c[v] <= Degree(g, v)
    ensures ColourCount(c) <= MaxDegree(g) + 1
  {
    if c != map[] {
      var n :| n in c && c[n] + 1 == ColourCount(c);
      assert Degree(g, n) <= MaxDegree(g);
    }
  }
}
