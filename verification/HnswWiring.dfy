/** Wiring a new node into one layer, and the structural invariant every such step
    keeps (crates/qv-hnsw/src/hnsw.rs). */
module HnswWiring {
  import opened Bytes
  import opened TopK
  import opened HnswGraph
  import opened HnswLinks

  /** Node `i` on layer `l`: every neighbour exists on the layer and is not the node
      itself, there are no duplicates and at most `m_max` of them. */
  ghost predicate ListOk(params: Params, g: Graph, i: nat, l: nat, list: seq<nat>) {
    && (forall n | n in list :: HasLayer(g, n, l) && n != i)
    && NoDup(list)
    && |list| <= params.MMax(l)
  }

  ghost predicate GraphOk(params: Params, g: Graph) {
    && (forall i | 0 <= i < |g| :: |g[i].neighbors| >= 1)
    && (forall i: nat, l: nat :: ListOk(params, g, i, l, Adj(g, i, l)))
  }

  lemma GraphOkInRange(params: Params, g: Graph, l: nat)
    requires GraphOk(params, g)
    ensures InRange(g, l)
  {}

  /** Same nodes, ids, vectors and layer counts; only adjacency may differ. */
  ghost predicate SameShape(g: Graph, h: Graph) {
    |g| == |h| && forall i | 0 <= i < |g| ::
      g[i].id == h[i].id && g[i].vector == h[i].vector && |g[i].neighbors| == |h[i].neighbors|
  }

  function SetAdj(g: Graph, i: nat, l: nat, list: seq<nat>): Graph
    requires HasLayer(g, i, l)
  {
    g[i := g[i].(neighbors := g[i].neighbors[l := list])]
  }

  lemma SetAdjFacts(g: Graph, i: nat, l: nat, list: seq<nat>)
    requires HasLayer(g, i, l)
    ensures SameShape(g, SetAdj(g, i, l, list))
    ensures forall j: nat, k: nat :: Adj(SetAdj(g, i, l, list), j, k) == if j == i && k == l then list else Adj(g, j, k)
  {}

  lemma SameShapeList(params: Params, g: Graph, h: Graph, i: nat, l: nat, list: seq<nat>)
    requires SameShape(g, h) && ListOk(params, g, i, l, list)
    ensures ListOk(params, h, i, l, list)
  {}

  lemma SetAdjKeepsOk(params: Params, g: Graph, i: nat, l: nat, list: seq<nat>)
    requires GraphOk(params, g) && HasLayer(g, i, l) && ListOk(params, g, i, l, list)
    ensures GraphOk(params, SetAdj(g, i, l, list))
  {
    var h := SetAdj(g, i, l, list);
    SetAdjFacts(g, i, l, list);
    forall j: nat, k: nat ensures ListOk(params, h, j, k, Adj(h, j, k)) {
      assert ListOk(params, g, j, k, Adj(g, j, k));
      SameShapeList(params, g, h, j, k, Adj(h, j, k));
    }
  }

  /** The heuristic depends on the vectors only. */
  lemma SelectionSameShape(metric: Metric, g: Graph, h: Graph, cands: seq<Hit>, m: nat, kept: seq<Hit>)
    requires SameShape(g, h) && InGraph(g, cands) && IsSelection(metric, g, cands, m, kept)
    ensures IsSelection(metric, h, cands, m, kept)
  {}

  /** What linking `nu` back from `nbr` makes of its list: appended, and pruned by
      the heuristic if that overflows the layer's bound. */
  ghost predicate BackEdge(metric: Metric, params: Params, g: Graph, nbr: nat, l: nat, nu: nat, list: seq<nat>)
    requires InRange(g, l) && nbr < |g| && nu < |g|
  {
    var pushed := Adj(g, nbr, l) + [nu];
    assert forall i | 0 <= i < |pushed| - 1 :: pushed[i] in Adj(g, nbr, l);
    if |pushed| <= params.MMax(l) then list == pushed
    else IsPruned(metric, g, nbr, pushed, params.MMax(l), list)
  }

  lemma BackEdgeOk(metric: Metric, params: Params, g: Graph, nbr: nat, l: nat, nu: nat, list: seq<nat>)
    requires GraphOk(params, g) && InRange(g, l) && nbr < |g| && HasLayer(g, nu, l) && nu != nbr && nu !in Adj(g, nbr, l)
    requires BackEdge(metric, params, g, nbr, l, nu, list)
    ensures ListOk(params, g, nbr, l, list)
  {}

  lemma BackEdgeSameShape(metric: Metric, params: Params, g: Graph, h: Graph, nbr: nat, l: nat, nu: nat, list: seq<nat>)
    requires SameShape(g, h) && InRange(g, l) && InRange(h, l) && nbr < |g| && nu < |g|
    requires Adj(g, nbr, l) == Adj(h, nbr, l) && BackEdge(metric, params, g, nbr, l, nu, list)
    ensures BackEdge(metric, params, h, nbr, l, nu, list)
  {
    var pushed := Adj(g, nbr, l) + [nu];
    if |pushed| > params.MMax(l) {
      var cands := CandidatesOf(metric, g, nbr, pushed);
      var kept :| IsSelection(metric, g, cands, params.MMax(l), kept) && list == Ids(kept);
      SelectionSameShape(metric, g, h, cands, params.MMax(l), kept);
      assert CandidatesOf(metric, h, nbr, pushed) == cands;
    }
  }

  /** Push the back-edge and prune an over-full list. */
  method LinkBack(metric: Metric, params: Params, g: Graph, nbr: nat, l: nat, nu: nat) returns (h: Graph)
    requires GraphOk(params, g) && InRange(g, l) && HasLayer(g, nbr, l) && HasLayer(g, nu, l)
    requires nu != nbr && nu !in Adj(g, nbr, l)
    ensures h == SetAdj(g, nbr, l, Adj(h, nbr, l)) && GraphOk(params, h)
    ensures BackEdge(metric, params, g, nbr, l, nu, Adj(h, nbr, l))
  {
    var list := g[nbr].neighbors[l] + [nu];
    if |list| > params.MMax(l) {
      assert forall i | 0 <= i < |list| :: list[i] < |g| by {
        assert forall i | 0 <= i < |Adj(g, nbr, l)| :: Adj(g, nbr, l)[i] in Adj(g, nbr, l);
      }
      var kept := SelectNeighbors(metric, g, CandidatesOf(metric, g, nbr, list), params.MMax(l));
      list := Ids(kept);
    }
    h := SetAdj(g, nbr, l, list);
    SetAdjFacts(g, nbr, l, list);
    BackEdgeOk(metric, params, g, nbr, l, nu, list);
    SetAdjKeepsOk(params, g, nbr, l, list);
  }

  // ---- one layer ------------------------------------------------------------

  /** How wiring node `nu` to `selected` changes layer `l`: its own list is the
      selection, each selected node gets a back-edge, nothing else changes. */
  ghost predicate Wired(metric: Metric, params: Params, g: Graph, h: Graph, nu: nat, l: nat, selected: seq<nat>)
    requires InRange(g, l) && nu < |g| && forall i | 0 <= i < |selected| :: selected[i] < |g|
  {
    && SameShape(g, h)
    && Adj(h, nu, l) == selected
    && (forall i | 0 <= i < |selected| :: BackEdge(metric, params, g, selected[i], l, nu, Adj(h, selected[i], l)))
    && (forall j: nat, k: nat | k != l || (j != nu && j !in selected) :: Adj(h, j, k) == Adj(g, j, k))
  }

  /** Node `nu` has no edges on the layer yet, in either direction. */
  ghost predicate Unlinked(g: Graph, nu: nat, l: nat) {
    Adj(g, nu, l) == [] && forall i: nat :: nu !in Adj(g, i, l)
  }

  method WireLayer(metric: Metric, params: Params, g: Graph, nu: nat, l: nat, selected: seq<nat>) returns (h: Graph)
    requires GraphOk(params, g) && InRange(g, l) && HasLayer(g, nu, l) && Unlinked(g, nu, l)
    requires ListOk(params, g, nu, l, selected)
    requires forall i | 0 <= i < |selected| :: selected[i] < |g|
    ensures GraphOk(params, h) && Wired(metric, params, g, h, nu, l, selected)
  {
    h := SetAdj(g, nu, l, selected);
    SetAdjFacts(g, nu, l, selected);
    SetAdjKeepsOk(params, g, nu, l, selected);
    for t := 0 to |selected|
      invariant GraphOk(params, h) && SameShape(g, h) && Adj(h, nu, l) == selected
      invariant forall i | 0 <= i < t :: BackEdge(metric, params, g, selected[i], l, nu, Adj(h, selected[i], l))
      invariant forall j: nat, k: nat | k != l || (j != nu && j !in selected[..t]) :: Adj(h, j, k) == Adj(g, j, k)
    {
      h := WireStep(metric, params, g, h, nu, l, selected, t);
    }
    assert selected[..|selected|] == selected;
  }

  method WireStep(metric: Metric, params: Params, ghost g: Graph, cur: Graph, nu: nat, l: nat, selected: seq<nat>, t: nat) returns (h: Graph)
    requires GraphOk(params, cur) && SameShape(g, cur) && InRange(g, l) && HasLayer(g, nu, l) && Unlinked(g, nu, l)
    requires ListOk(params, g, nu, l, selected) && t < |selected| && forall i | 0 <= i < |selected| :: selected[i] < |g|
    requires Adj(cur, nu, l) == selected
    requires forall i | 0 <= i < t :: BackEdge(metric, params, g, selected[i], l, nu, Adj(cur, selected[i], l))
    requires forall j: nat, k: nat | k != l || (j != nu && j !in selected[..t]) :: Adj(cur, j, k) == Adj(g, j, k)
    ensures GraphOk(params, h) && SameShape(g, h) && Adj(h, nu, l) == selected
    ensures forall i | 0 <= i <= t :: BackEdge(metric, params, g, selected[i], l, nu, Adj(h, selected[i], l))
    ensures forall j: nat, k: nat | k != l || (j != nu && j !in selected[..t + 1]) :: Adj(h, j, k) == Adj(g, j, k)
  {
    var nbr := selected[t];
    assert nbr in selected;
    assert nbr != nu && HasLayer(g, nbr, l);
    assert nbr !in selected[..t] by { assert forall i | 0 <= i < t :: selected[..t][i] == selected[i]; }
    GraphOkInRange(params, cur, l);
    assert Adj(cur, nbr, l) == Adj(g, nbr, l);
    h := LinkBack(metric, params, cur, nbr, l, nu);
    SetAdjFacts(cur, nbr, l, Adj(h, nbr, l));
    BackEdgeSameShape(metric, params, cur, g, nbr, l, nu, Adj(h, nbr, l));
    OthersUnchanged(g, cur, h, nu, l, selected, t);
    forall i | 0 <= i <= t ensures BackEdge(metric, params, g, selected[i], l, nu, Adj(h, selected[i], l)) {
      if i < t { assert selected[..t][i] == selected[i]; }
    }
  }

  lemma OthersUnchanged(g: Graph, cur: Graph, h: Graph, nu: nat, l: nat, selected: seq<nat>, t: nat)
    requires t < |selected|
    requires forall j: nat, k: nat | k != l || (j != nu && j !in selected[..t]) :: Adj(cur, j, k) == Adj(g, j, k)
    requires forall j: nat, k: nat | k != l || j != selected[t] :: Adj(h, j, k) == Adj(cur, j, k)
    ensures forall j: nat, k: nat | k != l || (j != nu && j !in selected[..t + 1]) :: Adj(h, j, k) == Adj(g, j, k)
  {
    assert selected[..t + 1] == selected[..t] + [selected[t]];
  }
}
