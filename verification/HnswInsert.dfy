/** Descent through the upper layers and the insertion of one node, layer by layer
    (crates/qv-hnsw/src/hnsw.rs). */
module HnswInsert {
  import opened Bytes
  import opened TopK
  import opened HnswGraph
  import opened HnswLinks
  import opened HnswWiring

  /** A node without in-edges is reached only from itself, and nothing reachable on a
      layer falls off it. */
  lemma ReachStaysOnLayer(params: Params, g: Graph, nu: nat, l: nat, entry: nat, v: nat)
    requires GraphOk(params, g) && HasLayer(g, entry, l) && entry != nu && (forall i: nat :: nu !in Adj(g, i, l))
    requires Reachable(g, l, entry, v)
    ensures HasLayer(g, v, l) && v != nu
  {
    var s := set i | i in Indices(g) && HasLayer(g, i, l) && i != nu;
    forall i, n | i in s && n in Adj(g, i, l) ensures n in s { assert ListOk(params, g, i, l, Adj(g, i, l)); }
    assert Closed(g, l, s);
  }

  /** No edge of the layer leads to the node. */
  ghost predicate Unreferenced(g: Graph, n: nat, l: nat) { forall i: nat :: n !in Adj(g, i, l) }

  /** One layer of greedy descent took `a` to `b`. */
  ghost predicate GreedyStop(metric: Metric, g: Graph, query: Vector, l: nat, a: nat, b: nat) {
    && InRange(g, l) && a < |g| && b < |g| && Reachable(g, l, a, b)
    && Dist(metric, g, query, b) <= Dist(metric, g, query, a) && LocalMinimum(metric, g, query, l, b)
  }

  ghost predicate StopAt(metric: Metric, g: Graph, query: Vector, from: nat, stops: seq<nat>, k: nat)
    requires k + 1 < |stops|
  {
    k <= from && GreedyStop(metric, g, query, from - k, stops[k], stops[k + 1])
  }

  /** The stops of a descent: one per layer, from the top layer down, none skipped. */
  ghost predicate IsDescent(metric: Metric, g: Graph, query: Vector, from: nat, to: nat, stops: seq<nat>) {
    |stops| == (if from > to then from - to else 0) + 1 && forall k: nat | k + 1 < |stops| :: StopAt(metric, g, query, from, stops, k)
  }

  ghost predicate Descends(metric: Metric, g: Graph, query: Vector, from: nat, to: nat, a: nat, b: nat) {
    exists stops :: IsDescent(metric, g, query, from, to, stops) && stops[0] == a && stops[|stops| - 1] == b
  }

  lemma OneLayerDown(metric: Metric, g: Graph, query: Vector, from: nat, layer: nat, a: nat, b: nat, c: nat)
    requires 0 < layer <= from && Descends(metric, g, query, from, layer, a, b) && GreedyStop(metric, g, query, layer, b, c)
    ensures Descends(metric, g, query, from, layer - 1, a, c)
  {
    var stops :| IsDescent(metric, g, query, from, layer, stops) && stops[0] == a && stops[|stops| - 1] == b;
    var more := stops + [c];
    forall k: nat | k + 1 < |more| ensures StopAt(metric, g, query, from, more, k) {
      if k + 1 < |stops| { assert StopAt(metric, g, query, from, stops, k); }
    }
    assert IsDescent(metric, g, query, from, layer - 1, more) && more[0] == a && more[|more| - 1] == c;
  }

  lemma NoDescent(metric: Metric, g: Graph, query: Vector, from: nat, to: nat, a: nat)
    requires from <= to
    ensures Descends(metric, g, query, from, to, a, a)
  {
    var stops := [a];
    assert IsDescent(metric, g, query, from, to, stops) && stops[0] == a && stops[|stops| - 1] == a;
  }

  /** Greedy descent from layer `from` down to just above layer `to`. The node it
      lands on is a local minimum of the last layer searched and exists on `to`. */
  method Descend(metric: Metric, params: Params, g: Graph, query: Vector, entry: nat, from: nat, to: nat, ghost avoid: nat) returns (curr: nat)
    requires GraphOk(params, g) && HasLayer(g, entry, from) && entry != avoid
    requires forall l: nat | to < l :: Unreferenced(g, avoid, l)
    ensures HasLayer(g, curr, if from < to then from else to) && curr != avoid
    ensures from <= to ==> curr == entry
    ensures from > to ==> InRange(g, to + 1) && LocalMinimum(metric, g, query, to + 1, curr)
    ensures Dist(metric, g, query, curr) <= Dist(metric, g, query, entry)
    ensures Descends(metric, g, query, from, to, entry, curr)
  {
    if from <= to {
      NoDescent(metric, g, query, from, to, entry);
      curr := entry;
    } else {
      curr := DescendTo(metric, params, g, query, entry, from, to, avoid);
    }
  }

  /** The loop over layers. */
  method DescendTo(metric: Metric, params: Params, g: Graph, query: Vector, entry: nat, from: nat, to: nat, ghost avoid: nat) returns (curr: nat)
    requires GraphOk(params, g) && HasLayer(g, entry, from) && entry != avoid && to <= from
    requires forall l: nat | to < l :: Unreferenced(g, avoid, l)
    ensures ArrivedOn(metric, g, query, entry, from, to, curr, avoid)
  {
    curr := entry;
    NoDescent(metric, g, query, from, from, entry);
    var layer := from;
    while layer > to
      invariant to <= layer && ArrivedOn(metric, g, query, entry, from, layer, curr, avoid)
    {
      var next := DescendLayer(metric, params, g, query, curr, layer, avoid);
      ArrivedBelow(metric, g, query, entry, from, layer, curr, next, avoid);
      curr := next;
      layer := layer - 1;
    }
  }

  /** A descent that has come down to `layer`. */
  ghost predicate ArrivedOn(metric: Metric, g: Graph, query: Vector, entry: nat, from: nat, layer: nat, curr: nat, avoid: nat) {
    && entry < |g| && layer <= from && HasLayer(g, curr, layer) && curr != avoid
    && Dist(metric, g, query, curr) <= Dist(metric, g, query, entry)
    && Descends(metric, g, query, from, layer, entry, curr)
    && (layer < from ==> InRange(g, layer + 1) && LocalMinimum(metric, g, query, layer + 1, curr))
  }

  lemma ArrivedBelow(metric: Metric, g: Graph, query: Vector, entry: nat, from: nat, layer: nat, curr: nat, next: nat, avoid: nat)
    requires 0 < layer && ArrivedOn(metric, g, query, entry, from, layer, curr, avoid)
    requires GreedyStop(metric, g, query, layer, curr, next) && HasLayer(g, next, layer) && next != avoid
    ensures ArrivedOn(metric, g, query, entry, from, layer - 1, next, avoid)
  {
    OneLayerDown(metric, g, query, from, layer, entry, curr, next);
  }

  /** Greedy search on one layer, which does not leave it. */
  method DescendLayer(metric: Metric, params: Params, g: Graph, query: Vector, curr: nat, layer: nat, ghost avoid: nat) returns (next: nat)
    requires GraphOk(params, g) && HasLayer(g, curr, layer) && curr != avoid && Unreferenced(g, avoid, layer)
    ensures HasLayer(g, next, layer) && next != avoid && GreedyStop(metric, g, query, layer, curr, next)
  {
    GraphOkInRange(params, g, layer);
    next := GreedySearchLayer(metric, g, query, curr, layer);
    ReachStaysOnLayer(params, g, avoid, layer, curr, next);
  }

  /** One layer of an insertion: search from `entry`, select by the heuristic, wire
      both ways, and hand the nearest found node down as the next entry. */
  datatype LayerStep = LayerStep(before: Graph, after: Graph, layer: nat, entry: nat, next: nat,
                                 found: seq<Hit>, visited: set<nat>, kept: seq<Hit>)

  ghost predicate StepOk(metric: Metric, params: Params, query: Vector, nu: nat, st: LayerStep) {
    && InRange(st.before, st.layer) && nu < |st.before| && InGraph(st.before, st.found) && InGraph(st.before, st.kept)
    && IsLayerSearch(metric, st.before, query, st.entry, params.efConstruction, st.layer, st.found, st.visited)
    && IsSelection(metric, st.before, st.found, params.MMax(st.layer), st.kept)
    && Wired(metric, params, st.before, st.after, nu, st.layer, Ids(st.kept))
    && IsNearestHit(st.found, st.next)
    && st.entry != nu && nu !in st.visited
  }

  ghost predicate IsNearestHit(found: seq<Hit>, n: nat) {
    exists i :: 0 <= i < |found| && found[i].id == n && forall x | x in found :: found[i].score <= x.score
  }

  /** `min_by` over the found nodes. */
  method NearestHit(found: seq<Hit>) returns (n: nat)
    requires found != []
    ensures IsNearestHit(found, n)
  {
    var best := 0;
    for i := 1 to |found|
      invariant 0 <= best < |found| && forall x | 0 <= x < i :: found[best].score <= found[x].score
    {
      if found[i].score < found[best].score { best := i; }
    }
    n := found[best].id;
  }

  /** What a search on the layer finds when `nu` is not linked there: other nodes of the layer. */
  lemma FoundAreOthers(metric: Metric, params: Params, g: Graph, query: Vector, nu: nat, l: nat, entry: nat, ef: nat, found: seq<Hit>, visited: set<nat>)
    requires GraphOk(params, g) && HasLayer(g, entry, l) && entry != nu && Unlinked(g, nu, l)
    requires IsLayerSearch(metric, g, query, entry, ef, l, found, visited)
    ensures found != [] && InGraph(g, found) && DistinctIds(found) && nu !in visited
    ensures forall h | h in found :: HasLayer(g, h.id, l) && h.id != nu
  {
    assert |visited| > 0;
    if nu in visited { ReachStaysOnLayer(params, g, nu, l, entry, nu); }
    forall h | h in found ensures HasLayer(g, h.id, l) && h.id != nu {
      ReachStaysOnLayer(params, g, nu, l, entry, h.id);
    }
    forall i | 0 <= i < |found| ensures found[i].id < |g| { assert found[i] in found; }
  }

  method ConnectLayer(metric: Metric, params: Params, g: Graph, nu: nat, l: nat, entry: nat)
    returns (h: Graph, next: nat, ghost st: LayerStep)
    requires params.Ok() && GraphOk(params, g) && HasLayer(g, nu, l) && Unlinked(g, nu, l)
    requires HasLayer(g, entry, l) && entry != nu
    ensures GraphOk(params, h) && SameShape(g, h) && HasLayer(h, next, l) && next != nu
    ensures forall j: nat, k: nat | k != l :: Adj(h, j, k) == Adj(g, j, k)
    ensures StepOk(metric, params, g[nu].vector, nu, st)
    ensures st.before == g && st.after == h && st.layer == l && st.entry == entry && st.next == next
  {
    GraphOkInRange(params, g, l);
    var query := g[nu].vector;
    var found, visited := SearchLayer(metric, g, query, entry, params.efConstruction, l);
    FoundAreOthers(metric, params, g, query, nu, l, entry, params.efConstruction, found, visited);
    next := NearestHit(found);
    var kept := SelectNeighbors(metric, g, found, params.MMax(l));
    SelectedListOk(metric, params, g, nu, l, found, kept);
    h := WireLayer(metric, params, g, nu, l, Ids(kept));
    st := LayerStep(g, h, l, entry, next, found, visited, kept);
    NextOnLayer(g, h, nu, l, found, next);
  }

  lemma NextOnLayer(g: Graph, h: Graph, nu: nat, l: nat, found: seq<Hit>, next: nat)
    requires SameShape(g, h) && IsNearestHit(found, next) && forall x | x in found :: HasLayer(g, x.id, l) && x.id != nu
    ensures HasLayer(h, next, l) && next != nu
  {}

  lemma SelectedListOk(metric: Metric, params: Params, g: Graph, nu: nat, l: nat, found: seq<Hit>, kept: seq<Hit>)
    requires InGraph(g, found) && DistinctIds(found) && IsSelection(metric, g, found, params.MMax(l), kept)
    requires forall h | h in found :: HasLayer(g, h.id, l) && h.id != nu
    ensures ListOk(params, g, nu, l, Ids(kept))
    ensures forall i | 0 <= i < |kept| :: Ids(kept)[i] < |g|
  {}

  /** Step `t` handles layer `top - t` and continues where the previous step left off. */
  ghost predicate Follows(top: nat, g: Graph, entry: nat, steps: seq<LayerStep>, t: nat)
    requires t < |steps|
  {
    && steps[t].layer == top - t
    && steps[t].before == GraphAfter(g, steps, t)
    && steps[t].entry == EntryAfter(entry, steps, t)
  }

  ghost predicate Chained(top: nat, g: Graph, entry: nat, steps: seq<LayerStep>) {
    |steps| <= top + 1 && forall t | 0 <= t < |steps| :: Follows(top, g, entry, steps, t)
  }

  ghost predicate AllStepsOk(metric: Metric, params: Params, query: Vector, nu: nat, steps: seq<LayerStep>) {
    forall t | 0 <= t < |steps| :: StepOkAt(metric, params, query, nu, steps, t)
  }

  ghost predicate StepOkAt(metric: Metric, params: Params, query: Vector, nu: nat, steps: seq<LayerStep>, t: nat)
    requires t < |steps|
  {
    StepOk(metric, params, query, nu, steps[t])
  }

  lemma ExtendStepsOk(metric: Metric, params: Params, query: Vector, nu: nat, steps: seq<LayerStep>, st: LayerStep)
    requires AllStepsOk(metric, params, query, nu, steps) && StepOk(metric, params, query, nu, st)
    ensures AllStepsOk(metric, params, query, nu, steps + [st])
  {
    forall t | 0 <= t < |steps| + 1 ensures StepOkAt(metric, params, query, nu, steps + [st], t) {
      if t < |steps| {
        assert StepOkAt(metric, params, query, nu, steps, t);
        assert (steps + [st])[t] == steps[t];
      } else {
        assert (steps + [st])[t] == st;
      }
    }
  }

  function GraphAfter(g: Graph, steps: seq<LayerStep>, t: nat): Graph
    requires t <= |steps|
  {
    if t == 0 then g else steps[t - 1].after
  }

  function EntryAfter(entry: nat, steps: seq<LayerStep>, t: nat): nat
    requires t <= |steps|
  {
    if t == 0 then entry else steps[t - 1].next
  }

  lemma ExtendChain(top: nat, g: Graph, entry: nat, steps: seq<LayerStep>, st: LayerStep)
    requires Chained(top, g, entry, steps) && |steps| <= top
    requires st.layer == top - |steps| && st.before == GraphAfter(g, steps, |steps|) && st.entry == EntryAfter(entry, steps, |steps|)
    ensures Chained(top, g, entry, steps + [st])
  {
    forall t | 0 <= t < |steps| + 1 ensures Follows(top, g, entry, steps + [st], t) {
      if t < |steps| { assert Follows(top, g, entry, steps, t); }
    }
  }

  /** Where phase 1 of an insertion may end: greedily layer by layer from the entry point,
      on the layer phase 2 starts with, no farther
      than the entry point, which it is itself unless the descent moved, and a local
      minimum of the last layer descended through. */
  ghost predicate IsStart(metric: Metric, g: Graph, query: Vector, level: nat, entry: nat, start: nat) {
    && entry < |g| && |g[entry].neighbors| > 0 && start < |g|
    && HasLayer(g, start, Min(level, |g[entry].neighbors| - 1))
    && Descends(metric, g, query, |g[entry].neighbors| - 1, level, entry, start)
    && Dist(metric, g, query, start) <= Dist(metric, g, query, entry)
    && (|g[entry].neighbors| - 1 <= level ==> start == entry)
    && (|g[entry].neighbors| - 1 > level ==> InRange(g, level + 1) && LocalMinimum(metric, g, query, level + 1, start))
  }

  /** Both phases of an insertion. The node being inserted is never reached by its
      own searches: on layers not yet wired nothing points to it. */
  method LinkNode(metric: Metric, params: Params, g: Graph, nu: nat, level: nat, entry: nat, entryLevel: nat)
    returns (h: Graph, ghost start: nat, ghost steps: seq<LayerStep>)
    requires params.Ok() && GraphOk(params, g) && nu < |g| && entry < |g| && entry != nu
    requires |g[nu].neighbors| == level + 1 && |g[entry].neighbors| == entryLevel + 1
    requires forall l: nat :: Unlinked(g, nu, l)
    ensures GraphOk(params, h) && SameShape(g, h)
    ensures AllStepsOk(metric, params, g[nu].vector, nu, steps) && Chained(Min(level, entryLevel), g, start, steps)
    ensures |steps| == Min(level, entryLevel) + 1 && h == steps[|steps| - 1].after
    ensures IsStart(metric, g, g[nu].vector, level, entry, start)
  {
    forall l: nat ensures Unreferenced(g, nu, l) { assert Unlinked(g, nu, l); }
    var e := Descend(metric, params, g, g[nu].vector, entry, entryLevel, level, nu);
    start := e;
    h, steps := LinkLayers(metric, params, g, nu, Min(level, entryLevel), e);
  }

  /** Phase 2: wire the new node on every layer from `top` down to zero. */
  method LinkLayers(metric: Metric, params: Params, g: Graph, nu: nat, top: nat, start: nat) returns (h: Graph, ghost steps: seq<LayerStep>)
    requires params.Ok() && GraphOk(params, g) && HasLayer(g, nu, top) && HasLayer(g, start, top) && start != nu
    requires forall l: nat :: Unlinked(g, nu, l)
    ensures GraphOk(params, h) && SameShape(g, h)
    ensures AllStepsOk(metric, params, g[nu].vector, nu, steps) && Chained(top, g, start, steps)
    ensures |steps| == top + 1 && h == steps[|steps| - 1].after
  {
    var e := start;
    h, steps := g, [];
    var l := top + 1;
    while l > 0
      invariant 0 <= l <= top + 1
      invariant GraphOk(params, h) && SameShape(g, h) && e != nu
      invariant l > 0 ==> HasLayer(h, e, l - 1)
      invariant forall k: nat | k < l :: Unlinked(h, nu, k)
      invariant AllStepsOk(metric, params, g[nu].vector, nu, steps) && Chained(top, g, start, steps)
      invariant |steps| == top + 1 - l && h == GraphAfter(g, steps, |steps|) && e == EntryAfter(start, steps, |steps|)
    {
      l := l - 1;
      var h', e', st := ConnectLayer(metric, params, h, nu, l, e);
      ExtendChain(top, g, start, steps, st);
      ExtendStepsOk(metric, params, g[nu].vector, nu, steps, st);
      StillUnlinked(h, h', nu, l);
      h, e, steps := h', e', steps + [st];
    }
  }

  lemma StillUnlinked(g: Graph, h: Graph, nu: nat, l: nat)
    requires forall k: nat | k <= l :: Unlinked(g, nu, k)
    requires forall j: nat, k: nat | k != l :: Adj(h, j, k) == Adj(g, j, k)
    ensures forall k: nat | k < l :: Unlinked(h, nu, k)
  {
    forall k: nat | k < l ensures Unlinked(h, nu, k) { assert Unlinked(g, nu, k); }
  }
}
