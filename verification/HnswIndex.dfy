/** The HNSW index object (crates/qv-hnsw/src/hnsw.rs). */
module HnswIndexes {
  import opened Bytes
  import opened TopK
  import opened HnswGraph
  import opened HnswLinks
  import opened HnswWiring
  import opened HnswInsert
  import opened HnswSearch
  import BruteForce

  function LiveSet(deleted: seq<bool>): set<nat> { set i: nat | i < |deleted| && !deleted[i] }

  lemma LiveSetAppend(deleted: seq<bool>)
    ensures |LiveSet(deleted + [false])| == |LiveSet(deleted)| + 1
  {
    assert LiveSet(deleted + [false]) == LiveSet(deleted) + {|deleted|};
  }

  lemma LiveSetRevive(deleted: seq<bool>, i: nat)
    requires i < |deleted| && deleted[i]
    ensures |LiveSet(deleted[i := false])| == |LiveSet(deleted)| + 1
  {
    assert LiveSet(deleted[i := false]) == LiveSet(deleted) + {i};
  }

  lemma LiveSetBury(deleted: seq<bool>, i: nat)
    requires i < |deleted| && !deleted[i]
    ensures |LiveSet(deleted)| > 0 && |LiveSet(deleted[i := true])| == |LiveSet(deleted)| - 1
  {
    assert LiveSet(deleted) == LiveSet(deleted[i := true]) + {i};
  }

  /** Ids, tombstones, vectors and the live count agree. */
  ghost predicate BooksOk(dim: nat, g: Graph, idToNode: map<u64, nat>, deleted: seq<bool>, live: nat) {
    && |deleted| == |g|
    && (forall i | 0 <= i < |g| :: g[i].id in idToNode && idToNode[g[i].id] == i && |g[i].vector| == dim)
    && (forall id | id in idToNode :: idToNode[id] < |g| && g[idToNode[id]].id == id)
    && live == |LiveSet(deleted)|
  }

  /** The entry point exists as soon as a node does, and no node has more layers. */
  ghost predicate EntryOk(g: Graph, entry: Option<nat>) {
    match entry
    case None => g == []
    case Some(e) => e < |g| && forall i | 0 <= i < |g| :: |g[i].neighbors| <= |g[e].neighbors|
  }

  ghost function LiveView(g: Graph, idToNode: map<u64, nat>, deleted: seq<bool>): map<u64, Vector>
    requires |deleted| == |g| && forall id | id in idToNode :: idToNode[id] < |g|
  {
    map id | id in idToNode && !deleted[idToNode[id]] :: g[idToNode[id]].vector
  }

  /** Changing a vector changes no edge. */
  lemma VectorChangeKeepsOk(params: Params, g: Graph, i: nat, v: Vector)
    requires GraphOk(params, g) && i < |g|
    ensures GraphOk(params, g[i := g[i].(vector := v)])
  {
    var h := g[i := g[i].(vector := v)];
    forall j: nat, l: nat ensures ListOk(params, h, j, l, Adj(h, j, l)) {
      assert Adj(h, j, l) == Adj(g, j, l);
      assert ListOk(params, g, j, l, Adj(g, j, l));
    }
  }

  /** Overwriting a vector and reviving its node replaces one entry of the live map. */
  lemma ReplaceView(dim: nat, g: Graph, idToNode: map<u64, nat>, deleted: seq<bool>, live: nat, id: u64, v: Vector)
    requires BooksOk(dim, g, idToNode, deleted, live) && id in idToNode && |v| == dim
    ensures
      var idx := idToNode[id];
      var h := g[idx := g[idx].(vector := v)];
      && (forall x | x in idToNode :: idToNode[x] < |h|)
      && LiveView(h, idToNode, deleted[idx := false]) == LiveView(g, idToNode, deleted)[id := v]
  {
    var idx := idToNode[id];
    forall x | x in idToNode && x != id ensures idToNode[x] != idx { assert g[idToNode[x]].id == x; }
  }

  function NewNode(id: u64, v: Vector, level: nat): Node { Node(id, v, seq(level + 1, _ => [])) }

  /** A node with empty lists joins without edges. */
  lemma AppendNode(params: Params, g: Graph, id: u64, v: Vector, level: nat)
    requires GraphOk(params, g)
    ensures GraphOk(params, g + [NewNode(id, v, level)])
    ensures forall l: nat :: Unlinked(g + [NewNode(id, v, level)], |g|, l)
  {
    var h := g + [NewNode(id, v, level)];
    forall j: nat, l: nat ensures Adj(h, j, l) == (if j < |g| then Adj(g, j, l) else []) {}
    forall j: nat, l: nat ensures ListOk(params, h, j, l, Adj(h, j, l)) && |g| !in Adj(h, j, l) {
      assert ListOk(params, g, j, l, Adj(g, j, l));
    }
  }

  lemma BooksAppend(dim: nat, g: Graph, idToNode: map<u64, nat>, deleted: seq<bool>, live: nat, node: Node, h: Graph)
    requires BooksOk(dim, g, idToNode, deleted, live) && node.id !in idToNode && |node.vector| == dim && SameShape(g + [node], h)
    ensures BooksOk(dim, h, idToNode[node.id := |g|], deleted + [false], live + 1)
    ensures LiveView(h, idToNode[node.id := |g|], deleted + [false]) == LiveView(g, idToNode, deleted)[node.id := node.vector]
  {
    LiveSetAppend(deleted);
    var m := idToNode[node.id := |g|];
    forall i | 0 <= i < |h| ensures h[i].id in m && m[h[i].id] == i && |h[i].vector| == dim {
      assert h[i].id == (g + [node])[i].id && h[i].vector == (g + [node])[i].vector;
    }
    forall id | id in m ensures m[id] < |h| && h[m[id]].id == id {
      assert h[m[id]].id == (g + [node])[m[id]].id;
    }
    ViewAppend(g, idToNode, deleted, node, h);
  }

  lemma ViewAppend(g: Graph, idToNode: map<u64, nat>, deleted: seq<bool>, node: Node, h: Graph)
    requires |deleted| == |g| && (forall id | id in idToNode :: idToNode[id] < |g|)
    requires node.id !in idToNode && SameShape(g + [node], h)
    ensures var m := idToNode[node.id := |g|]; forall id | id in m :: m[id] < |h|
    ensures LiveView(h, idToNode[node.id := |g|], deleted + [false]) == LiveView(g, idToNode, deleted)[node.id := node.vector]
  {}

  /** A newcomer taller than the entry point takes its place. */
  lemma EntryAppend(g: Graph, e: nat, node: Node, h: Graph)
    requires EntryOk(g, Some(e)) && SameShape(g + [node], h)
    ensures EntryOk(h, Some(if |node.neighbors| > |g[e].neighbors| then |g| else e))
  {}

  /** How inserting a new id changes the graph. Unless it is the first node, the
      result is one wiring step per layer from `min(level, entry level)` down to zero. */
  ghost predicate Grown(metric: Metric, params: Params, g: Graph, entry: Option<nat>, id: u64, vector: Vector, level: nat, h: Graph, start: nat, steps: seq<LayerStep>)
    requires EntryOk(g, entry)
  {
    var g0 := g + [NewNode(id, vector, level)];
    match entry
    case None => h == g0
    case Some(e) =>
      && IsStart(metric, g0, vector, level, e, start)
      && |steps| == Min(level + 1, |g[e].neighbors|)
      && AllStepsOk(metric, params, vector, |g|, steps)
      && steps != [] && Chained(|steps| - 1, g0, start, steps)
      && h == GraphAfter(g0, steps, |steps|)
  }

  /** The entry point moves only to a newcomer with a higher top layer. */
  function NextEntry(g: Graph, entry: Option<nat>, level: nat): Option<nat>
    requires entry.Some? ==> entry.value < |g|
  {
    if entry.None? || level + 1 > |g[entry.value].neighbors| then Some(|g|) else entry
  }

  method GrowGraph(metric: Metric, params: Params, g: Graph, entry: Option<nat>, id: u64, vector: Vector, level: nat)
    returns (h: Graph, entry': Option<nat>, ghost start: nat, ghost steps: seq<LayerStep>)
    requires params.Ok() && GraphOk(params, g) && EntryOk(g, entry)
    ensures GraphOk(params, h) && EntryOk(h, entry') && SameShape(g + [NewNode(id, vector, level)], h)
    ensures entry' == NextEntry(g, entry, level)
    ensures Grown(metric, params, g, entry, id, vector, level, h, start, steps)
  {
    var nu := |g|;
    var node := NewNode(id, vector, level);
    start, steps := 0, [];
    AppendNode(params, g, id, vector, level);
    h := g + [node];
    match entry
    case None =>
      entry' := Some(nu);
    case Some(e) =>
      var entryLevel := |g[e].neighbors| - 1;
      assert |g[e].neighbors| >= 1 && h[e] == g[e];
      h, start, steps := LinkNode(metric, params, h, nu, level, e, entryLevel);
      EntryAppend(g, e, node, h);
      entry' := if level > entryLevel then Some(nu) else entry;
  }

  /** The whole index as a value. */
  datatype Image = Image(nodes: Graph, idToNode: map<u64, nat>, deleted: seq<bool>, live: nat, entry: Option<nat>, rng: u64)

  /** The runtime check's clauses and the stronger facts it relies on. */
  ghost predicate ImageOk(dim: nat, params: Params, a: Image) {
    && dim > 0 && params.Ok()
    && GraphOk(params, a.nodes)
    && BooksOk(dim, a.nodes, a.idToNode, a.deleted, a.live)
    && EntryOk(a.nodes, a.entry)
  }

  ghost function ViewOf(a: Image): map<u64, Vector>
    requires |a.deleted| == |a.nodes| && forall id | id in a.idToNode :: a.idToNode[id] < |a.nodes|
  {
    LiveView(a.nodes, a.idToNode, a.deleted)
  }

  /** `b` is `a` with one more point: the generator advanced once and gave the level, the
      new node was linked in by the chained layer steps, and it became the entry point
      exactly when it was the first or rose above the old one. */
  ghost predicate InsertedNew(metric: Metric, params: Params, levelOf: u64 -> nat, a: Image, id: u64, vector: Vector, b: Image) {
    && EntryOk(a.nodes, a.entry) && id !in a.idToNode
    && b.rng == (a.rng + GOLDEN) % U64
    && b.idToNode == a.idToNode[id := |a.nodes|] && b.deleted == a.deleted + [false] && b.live == a.live + 1
    && b.entry == (if a.entry.None? || levelOf(b.rng) > |a.nodes[a.entry.value].neighbors| - 1 then Some(|a.nodes|) else a.entry)
    && exists start, steps :: Grown(metric, params, a.nodes, a.entry, id, vector, levelOf(b.rng), b.nodes, start, steps)
  }

  /** `b` is `a` with one vector overwritten and its tombstone, if any, lifted. */
  ghost predicate Replaced(a: Image, id: u64, vector: Vector, b: Image) {
    && id in a.idToNode && a.idToNode[id] < |a.nodes| == |a.deleted|
    && var i := a.idToNode[id];
      b == a.(nodes := a.nodes[i := a.nodes[i].(vector := vector)], deleted := a.deleted[i := false],
              live := a.live + if a.deleted[i] then 1 else 0)
  }

  /** `b` is `a` with a tombstone on the id's node, if it was live. */
  ghost predicate Buried(a: Image, id: u64, b: Image) {
    if id in a.idToNode && a.idToNode[id] < |a.deleted| && !a.deleted[a.idToNode[id]] then
      b.live == a.live - 1 && b == a.(deleted := a.deleted[a.idToNode[id] := true], live := b.live)
    else b == a
  }

  /** What one operation does to the whole index. */
  ghost predicate HistoryStep(dim: nat, metric: Metric, params: Params, levelOf: u64 -> nat, a: Image, op: Op, b: Image) {
    match op
    case OpInsert(id, v) =>
      if |v| != dim then b == a
      else if id in a.idToNode then Replaced(a, id, v, b)
      else InsertedNew(metric, params, levelOf, a, id, v, b)
    case OpDelete(id) => Buried(a, id, b)
  }

  /** Entering a grown graph in the books completes an insertion. */
  lemma InsertedOk(dim: nat, metric: Metric, params: Params, levelOf: u64 -> nat, a: Image, id: u64, vector: Vector, level: nat,
                   h: Graph, entry': Option<nat>, rng': u64, start: nat, steps: seq<LayerStep>)
    requires ImageOk(dim, params, a) && id !in a.idToNode && |vector| == dim
    requires rng' == (a.rng + GOLDEN) % U64 && level == levelOf(rng')
    requires GraphOk(params, h) && EntryOk(h, entry') && SameShape(a.nodes + [NewNode(id, vector, level)], h)
    requires entry' == NextEntry(a.nodes, a.entry, level)
    requires Grown(metric, params, a.nodes, a.entry, id, vector, level, h, start, steps)
    ensures
      var b := Image(h, a.idToNode[id := |a.nodes|], a.deleted + [false], a.live + 1, entry', rng');
      ImageOk(dim, params, b) && InsertedNew(metric, params, levelOf, a, id, vector, b) && ViewOf(b) == ViewOf(a)[id := vector]
  {
    BooksAppend(dim, a.nodes, a.idToNode, a.deleted, a.live, NewNode(id, vector, level), h);
  }

  const GOLDEN: u64 := 0x9E37_79B9_7F4A_7C15

  class HnswIndex {
    const dim: nat
    const metric: Metric
    const params: Params
    /** The level drawn from a generator state (floating-point logarithm left abstract). */
    const levelOf: u64 -> nat
    var nodes: Graph
    var idToNode: map<u64, nat>
    var deleted: seq<bool>
    var live: nat
    var entryPoint: Option<nat>
    var rng: u64

    ghost function Value(): Image
      reads this
    {
      Image(nodes, idToNode, deleted, live, entryPoint, rng)
    }

    ghost predicate Valid()
      reads this
    {
      ImageOk(dim, params, Value())
    }

    /** The abstract value: live id -> vector. */
    ghost function View(): map<u64, Vector>
      reads this
      requires Valid()
    {
      ViewOf(Value())
    }

    constructor (dim: nat, metric: Metric, params: Params, levelOf: u64 -> nat, seed: u64)
      requires dim > 0 && params.Ok()
      ensures Valid() && View() == map[] && this.dim == dim && this.metric == metric
      ensures this.params == params && this.levelOf == levelOf && Value() == Image([], map[], [], 0, None, seed)
    {
      this.dim, this.metric, this.params, this.levelOf := dim, metric, params, levelOf;
      nodes, idToNode, deleted, live, entryPoint, rng := [], map[], [], 0, None, seed;
    }

    method RandomLevel() returns (level: nat)
      modifies this`rng
      ensures rng == (old(rng) + GOLDEN) % U64 && level == levelOf(rng)
    {
      rng := (rng + GOLDEN) % U64;
      level := levelOf(rng);
    }

    /** Insert an id not present. */
    method InsertNew(id: u64, vector: Vector)
      requires Valid() && id !in idToNode && |vector| == dim
      modifies this
      ensures Valid() && View() == old(View())[id := vector]
      ensures InsertedNew(metric, params, levelOf, old(Value()), id, vector, Value())
    {
      ghost var a := Value();
      var level := RandomLevel();
      var nu := |nodes|;
      var h, entry';
      ghost var start, steps;
      h, entry', start, steps := GrowGraph(metric, params, nodes, entryPoint, id, vector, level);
      InsertedOk(dim, metric, params, levelOf, a, id, vector, level, h, entry', rng, start, steps);
      nodes, entryPoint := h, entry';
      deleted := deleted + [false];
      idToNode := idToNode[id := nu];
      live := live + 1;
    }

    /** Insert or replace: replacing overwrites the vector and revives a tombstone. */
    method Insert(id: u64, vector: Vector) returns (ok: bool)
      requires Valid()
      modifies this
      ensures Valid() && ok == (|vector| == dim)
      ensures View() == if ok then old(View())[id := vector] else old(View())
      ensures HistoryStep(dim, metric, params, levelOf, old(Value()), OpInsert(id, vector), Value())
    {
      if |vector| != dim { return false; }
      if id in idToNode {
        Replace(id, vector);
      } else {
        InsertNew(id, vector);
      }
      ok := true;
    }

    method Replace(id: u64, vector: Vector)
      requires Valid() && id in idToNode && |vector| == dim
      modifies this
      ensures Valid() && View() == old(View())[id := vector]
      ensures |nodes| == |old(nodes)| && forall i: nat, l: nat :: Adj(nodes, i, l) == Adj(old(nodes), i, l)
      ensures Replaced(old(Value()), id, vector, Value())
    {
      var idx := idToNode[id];
      VectorChangeKeepsOk(params, nodes, idx, vector);
      ReplaceView(dim, nodes, idToNode, deleted, live, id, vector);
      nodes := nodes[idx := nodes[idx].(vector := vector)];
      if deleted[idx] {
        LiveSetRevive(deleted, idx);
        deleted := deleted[idx := false];
        live := live + 1;
      }
      assert deleted == old(deleted)[idx := false];
    }

    /** A delete only marks: the graph keeps its nodes and edges as waypoints. */
    method Delete(id: u64) returns (removed: bool)
      requires Valid()
      modifies this`deleted, this`live
      ensures Valid() && removed == (id in old(View())) && View() == old(View()) - {id}
      ensures HistoryStep(dim, metric, params, levelOf, old(Value()), OpDelete(id), Value())
    {
      if id in idToNode {
        var idx := idToNode[id];
        if !deleted[idx] {
          LiveSetBury(deleted, idx);
          deleted := deleted[idx := true];
          live := live - 1;
          return true;
        }
      }
      return false;
    }

    method GetVector(id: u64) returns (v: Option<Vector>)
      requires Valid()
      ensures v == if id in View() then Some(View()[id]) else None
    {
      if id !in idToNode { return None; }
      var idx := idToNode[id];
      if deleted[idx] { return None; }
      v := Some(nodes[idx].vector);
    }

    /** k-NN search: greedy descent to layer 0, best-first search there with breadth
        `max(ef_search, k)`, then the live results nearest first. At every breadth the
        answer is exactly `k` nearest of the live nodes the layer search returned; if the
        breadth covers what is reachable from the layer-0 entry, that is `k` nearest of
        the live reachable points. */
    method Search(query: Vector, k: nat, efSearch: nat)
      returns (out: Option<seq<Hit>>, ghost entry0: nat, ghost found: seq<Hit>, ghost visited: set<nat>)
      requires Valid()
      ensures out.None? <==> |query| != dim
      ensures out.Some? && (k == 0 || live == 0) ==> out.value == []
      ensures out.Some? && k > 0 && live > 0 ==> entryPoint.Some? && DescendsTo(metric, nodes, query, entryPoint.value, entry0)
      ensures out.Some? && k > 0 && live > 0 ==>
                && IsLayerSearch(metric, nodes, query, entry0, if efSearch < k then k else efSearch, 0, found, visited)
                && IsTopKUpToTies(LiveFound(nodes, deleted, found), k, out.value)
      ensures out.Some? ==> |out.value| <= k && DistinctIds(out.value) && Ascending(out.value)
      ensures out.Some? ==> forall h | h in out.value :: IsLiveHit(metric, View(), query, h)
      ensures out.Some? && nodes != [] ==> entry0 < |nodes|
      ensures out.Some? && nodes != [] && (if efSearch < k then k else efSearch) >= |ReachSet(nodes, 0, entry0)| ==>
                IsTopKUpToTies(LiveReachable(metric, nodes, deleted, query, entry0), k, out.value)
    {
      entry0, found, visited := 0, [], {};
      if |query| != dim { return None, 0, [], {}; }
      if k == 0 || live == 0 {
        NothingToFind(dim, metric, nodes, idToNode, deleted, live, query, entry0, k);
        return Some([]), 0, [], {};
      }
      if entryPoint.None? { return Some([]), entry0, found, visited; }
      var hits;
      hits, entry0, found, visited := SearchLive(query, k, if efSearch < k then k else efSearch);
      out := Some(hits);
    }

    /** Both parts of a search that has something to look for. */
    method SearchLive(query: Vector, k: nat, ef: nat) returns (out: seq<Hit>, ghost entry0: nat, ghost found: seq<Hit>, ghost visited: set<nat>)
      requires Valid() && k > 0 && entryPoint.Some?
      ensures DescendsTo(metric, nodes, query, entryPoint.value, entry0)
      ensures IsLayerSearch(metric, nodes, query, entry0, ef, 0, found, visited) && IsTopKUpToTies(LiveFound(nodes, deleted, found), k, out)
      ensures |out| <= k && DistinctIds(out) && Ascending(out) && forall h | h in out :: IsLiveHit(metric, View(), query, h)
      ensures ef >= |ReachSet(nodes, 0, entry0)| ==> IsTopKUpToTies(LiveReachable(metric, nodes, deleted, query, entry0), k, out)
    {
      var curr := FindEntry(metric, params, nodes, query, entryPoint.value);
      entry0 := curr;
      out, found, visited := SearchFrom(query, k, ef, curr);
    }

    /** The layer-0 part of a search. */
    method SearchFrom(query: Vector, k: nat, ef: nat, curr: nat) returns (out: seq<Hit>, ghost found: seq<Hit>, ghost visited: set<nat>)
      requires Valid() && k > 0 && curr < |nodes|
      ensures IsLayerSearch(metric, nodes, query, curr, ef, 0, found, visited) && IsTopKUpToTies(LiveFound(nodes, deleted, found), k, out)
      ensures |out| <= k && DistinctIds(out) && Ascending(out) && forall h | h in out :: IsLiveHit(metric, View(), query, h)
      ensures ef >= |ReachSet(nodes, 0, curr)| ==> IsTopKUpToTies(LiveReachable(metric, nodes, deleted, query, curr), k, out)
    {
      GraphOkInRange(params, nodes, 0);
      var results, seen := SearchLayer(metric, nodes, query, curr, ef, 0);
      found, visited := results, seen;
      out := RankLive(results, seen, query, curr, ef, k);
    }

    /** Sort the found nodes nearest first and keep the first `k` live ones. */
    method RankLive(found: seq<Hit>, ghost visited: set<nat>, query: Vector, ghost e: nat, ghost ef: nat, k: nat) returns (out: seq<Hit>)
      requires Valid() && k > 0 && IsLayerSearch(metric, nodes, query, e, ef, 0, found, visited)
      ensures |out| <= k && DistinctIds(out) && Ascending(out)
      ensures IsTopKUpToTies(LiveFound(nodes, deleted, found), k, out)
      ensures forall h | h in out :: IsLiveHit(metric, View(), query, h)
      ensures ef >= |ReachSet(nodes, 0, e)| ==> IsTopKUpToTies(LiveReachable(metric, nodes, deleted, query, e), k, out)
    {
      var cs := Sort(NoFarther, found);
      RankedFound(metric, nodes, query, e, ef, found, visited);
      BooksUnique(dim, nodes, idToNode, deleted, live);
      LiveHitsSpec(nodes, deleted, cs);
      RankedIsNearest(nodes, deleted, found, cs, k);
      if ef >= |ReachSet(nodes, 0, e)| {
        BroadSearchIsTopK(metric, nodes, deleted, query, e, ef, k, found, visited, cs);
      }
      out := TakeLive(nodes, deleted, cs, k);
      assert forall i | 0 <= i < |out| :: out[i] == LiveHits(nodes, deleted, cs)[i];
      HitsAreLive(dim, metric, nodes, idToNode, deleted, live, query, cs, out);
    }

    /** The clauses the source checks at run time. */
    ghost predicate RuntimeChecks()
      reads this
      requires |deleted| == |nodes|
    {
      && (entryPoint.Some? ==> entryPoint.value < |nodes|) && (entryPoint.None? ==> nodes == [])
      && (forall i | 0 <= i < |nodes| :: NodeChecks(params, nodes, idToNode, i))
      && live == |LiveSet(deleted)|
    }

    /** Passes exactly when the runtime clauses hold, which the invariant implies. */
    method ValidateInvariants() returns (ok: bool)
      requires |deleted| == |nodes|
      ensures ok <==> RuntimeChecks()
      ensures Valid() ==> ok
    {
      if Valid() { ValidImpliesChecks(params, nodes); }
      if entryPoint.Some? && entryPoint.value >= |nodes| { return false; }
      if entryPoint.None? && nodes != [] { return false; }
      var counted := 0;
      for i := 0 to |nodes|
        invariant counted == |LiveSet(deleted[..i])|
        invariant forall j | 0 <= j < i :: NodeChecks(params, nodes, idToNode, j)
      {
        CountStep(deleted, i);
        if !deleted[i] { counted := counted + 1; }
        var good := CheckNode(params, nodes, idToNode, i);
        if !good { return false; }
      }
      assert deleted[..|nodes|] == deleted;
      ok := counted == live;
    }
  }

  lemma NoEdgeBeyond(params: Params, g: Graph)
    requires GraphOk(params, g)
    ensures forall l: nat :: Unreferenced(g, |g|, l)
  {
    forall l: nat, i: nat ensures |g| !in Adj(g, i, l) { assert ListOk(params, g, i, l, Adj(g, i, l)); }
  }

  /** The upper layers of a search. */
  method FindEntry(metric: Metric, params: Params, g: Graph, query: Vector, entry: nat) returns (curr: nat)
    requires GraphOk(params, g) && entry < |g|
    ensures curr < |g| && DescendsTo(metric, g, query, entry, curr)
  {
    assert |g[entry].neighbors| >= 1;
    NoEdgeBeyond(params, g);
    curr := Descend(metric, params, g, query, entry, |g[entry].neighbors| - 1, 0, |g|);
  }

  /** Where the greedy descent of a query may end, one stop per layer: no farther than the entry point, and
      a local minimum of layer 1 if the entry point reaches that high. */
  ghost predicate DescendsTo(metric: Metric, g: Graph, query: Vector, entry: nat, e: nat) {
    && entry < |g| && e < |g| && Dist(metric, g, query, e) <= Dist(metric, g, query, entry) && |g[entry].neighbors| > 0
    && Descends(metric, g, query, |g[entry].neighbors| - 1, 0, entry, e)
    && (|g[entry].neighbors| <= 1 ==> e == entry)
    && (|g[entry].neighbors| > 1 ==> InRange(g, 1) && LocalMinimum(metric, g, query, 1, e))
  }

  ghost predicate IsLiveHit(metric: Metric, view: map<u64, Vector>, query: Vector, h: Hit) {
    h.id < U64 && h.id in view && h.score == metric(view[h.id], query)
  }

  /** What a search of any breadth leaves out. A live visited node that is not in the
      answer is no closer than any hit; and if the answer is short of `k`, the layer
      search had used up its whole breadth. */
  lemma LeftOutIsNoCloser(metric: Metric, g: Graph, deleted: seq<bool>, query: Vector, e: nat, ef: nat, k: nat,
                          found: seq<Hit>, visited: set<nat>, out: seq<Hit>, v: nat)
    requires |deleted| == |g| && IsLayerSearch(metric, g, query, e, ef, 0, found, visited)
    requires IsTopKUpToTies(LiveFound(g, deleted, found), k, out)
    requires v in visited && v < |g| && !deleted[v] && Hit(g[v].id, Dist(metric, g, query, v)) !in out
    ensures forall h | h in out :: h.score <= Dist(metric, g, query, v)
    ensures |out| < k ==> |found| == if ef == 0 then 1 else ef
  {
    var mine, all := Hit(v, Dist(metric, g, query, v)), LiveFound(g, deleted, found);
    if mine in found { assert Hit(g[v].id, mine.score) in all; }
    forall h | h in out ensures h.score <= mine.score {
      assert h in Elems(out);
      var x :| x in found && x.id < |g| && !deleted[x.id] && h == Hit(g[x.id].id, x.score);
    }
    if |out| < k {
      DistinctSize(out);
      SubsetSize(Elems(out), all);
      assert mine !in found;
      FoundMissesVisited(metric, g, query, found, visited, v);
    }
  }

  lemma FoundMissesVisited(metric: Metric, g: Graph, query: Vector, found: seq<Hit>, visited: set<nat>, v: nat)
    requires visited <= Indices(g) && v in visited && v < |g| && Hit(v, Dist(metric, g, query, v)) !in found
    requires DistinctIds(found) && forall h | h in found :: h.id in visited && h.score == Dist(metric, g, query, h.id)
    ensures |found| < |visited|
  {
    IdCount(found);
    var ids := set h | h in found :: h.id;
    assert v !in ids;
    SubsetCard(ids, visited - {v});
  }

  /** The found nodes sorted nearest first. */
  lemma RankedFound(metric: Metric, g: Graph, query: Vector, e: nat, ef: nat, found: seq<Hit>, visited: set<nat>)
    requires IsLayerSearch(metric, g, query, e, ef, 0, found, visited)
    ensures
      var cs := Sort(NoFarther, found);
      && InGraph(g, cs) && DistinctIds(cs) && Ascending(cs) && (forall h :: h in cs <==> h in found)
      && (forall i | 0 <= i < |cs| :: cs[i].score == Dist(metric, g, query, cs[i].id))
  {
    Orders();
    SortSpec(NoFarther, found);
    var cs := Sort(NoFarther, found);
    assert InGraph(g, found) by { forall i | 0 <= i < |found| ensures found[i].id < |g| { assert found[i] in found; } }
    SortedCands(g, found, cs);
    forall i, j | 0 <= i < j < |cs| ensures cs[i].score <= cs[j].score { assert NoFarther(cs[i], cs[j]); }
    forall i | 0 <= i < |cs| ensures cs[i].score == Dist(metric, g, query, cs[i].id) { assert cs[i] in found; }
  }

  lemma HitIsLive(dim: nat, metric: Metric, g: Graph, idToNode: map<u64, nat>, deleted: seq<bool>, live: nat, query: Vector, cs: seq<Hit>, h: Hit)
    requires BooksOk(dim, g, idToNode, deleted, live) && InGraph(g, cs) && FromLive(g, deleted, cs, h)
    requires forall i | 0 <= i < |cs| :: cs[i].score == Dist(metric, g, query, cs[i].id)
    ensures IsLiveHit(metric, LiveView(g, idToNode, deleted), query, h)
  {}

  lemma HitsAreLive(dim: nat, metric: Metric, g: Graph, idToNode: map<u64, nat>, deleted: seq<bool>, live: nat, query: Vector, cs: seq<Hit>, out: seq<Hit>)
    requires BooksOk(dim, g, idToNode, deleted, live) && InGraph(g, cs) && IdsUnique(g) && DistinctIds(cs) && Ascending(cs)
    requires forall i | 0 <= i < |cs| :: cs[i].score == Dist(metric, g, query, cs[i].id)
    requires out <= LiveHits(g, deleted, cs)
    ensures forall h | h in out :: IsLiveHit(metric, LiveView(g, idToNode, deleted), query, h)
  {
    LiveHitsSpec(g, deleted, cs);
    forall h | h in out ensures IsLiveHit(metric, LiveView(g, idToNode, deleted), query, h) {
      assert h in LiveHits(g, deleted, cs);
      HitIsLive(dim, metric, g, idToNode, deleted, live, query, cs, h);
    }
  }

  lemma BooksUnique(dim: nat, g: Graph, idToNode: map<u64, nat>, deleted: seq<bool>, live: nat)
    requires BooksOk(dim, g, idToNode, deleted, live)
    ensures IdsUnique(g)
  {}

  lemma NothingToFind(dim: nat, metric: Metric, g: Graph, idToNode: map<u64, nat>, deleted: seq<bool>, live: nat, query: Vector, e: nat, k: nat)
    requires BooksOk(dim, g, idToNode, deleted, live) && (k == 0 || live == 0)
    ensures IsTopKUpToTies(LiveReachable(metric, g, deleted, query, e), k, [])
  {
    if live == 0 {
      assert LiveSet(deleted) == {};
      assert forall i: nat | i < |deleted| :: i in LiveSet(deleted) <==> !deleted[i];
      assert LiveReachable(metric, g, deleted, query, e) == {};
    }
  }

  lemma AllReachableHits(dim: nat, metric: Metric, g: Graph, idToNode: map<u64, nat>, deleted: seq<bool>, live: nat, query: Vector, e: nat)
    requires BooksOk(dim, g, idToNode, deleted, live) && forall i: nat | i < |g| && !deleted[i] :: Reachable(g, 0, e, i)
    ensures
      var view := LiveView(g, idToNode, deleted);
      LiveReachable(metric, g, deleted, query, e) == set id | id in view :: Hit(id, metric(view[id], query))
  {
    var view := LiveView(g, idToNode, deleted);
    forall x ensures x in LiveReachable(metric, g, deleted, query, e) <==> exists id :: id in view && x == Hit(id, metric(view[id], query)) {
      if x in LiveReachable(metric, g, deleted, query, e) {
        var i :| i in ReachSet(g, 0, e) && !deleted[i] && x == Hit(g[i].id, Dist(metric, g, query, i));
        assert g[i].id in view;
      }
      if id :| id in view && x == Hit(id, metric(view[id], query)) {
        assert idToNode[id] in ReachSet(g, 0, e);
      }
    }
  }

  /** Against the brute-force oracle: when every live point is reachable from the
      layer-0 entry, a broad enough search returns as many hits as the oracle does,
      at the same distances. */
  lemma GraphMatchesOracle(dim: nat, metric: Metric, g: Graph, idToNode: map<u64, nat>, deleted: seq<bool>, live: nat, query: Vector, e: nat,
                           k: nat, out: seq<Hit>, oracle: seq<Hit>)
    requires BooksOk(dim, g, idToNode, deleted, live) && forall i: nat | i < |g| && !deleted[i] :: Reachable(g, 0, e, i)
    requires forall a, b :: metric(a, b) == metric(b, a)
    requires IsTopKUpToTies(LiveReachable(metric, g, deleted, query, e), k, out)
    requires IsTopK(BruteForce.Scores(metric, LiveView(g, idToNode, deleted), query), k, oracle)
    ensures |out| == |oracle| && forall i | 0 <= i < |out| :: out[i].score == oracle[i].score
  {
    AllReachableHits(dim, metric, g, idToNode, deleted, live, query, e);
    MatchesOracle(metric, LiveView(g, idToNode, deleted), query, k, LiveReachable(metric, g, deleted, query, e), out, oracle);
  }

  ghost predicate NodeChecks(params: Params, g: Graph, idToNode: map<u64, nat>, i: nat)
    requires i < |g|
  {
    && g[i].id in idToNode && idToNode[g[i].id] == i
    && forall l | 0 <= l < |g[i].neighbors| :: LayerChecks(params, g, i, l)
  }

  ghost predicate LayerChecks(params: Params, g: Graph, i: nat, l: nat)
    requires HasLayer(g, i, l)
  {
    |g[i].neighbors[l]| <= params.MMax(l) && forall j | 0 <= j < |g[i].neighbors[l]| :: g[i].neighbors[l][j] < |g| && g[i].neighbors[l][j] != i
  }

  lemma ValidImpliesChecks(params: Params, g: Graph)
    requires GraphOk(params, g)
    ensures forall i, l | 0 <= i < |g| && 0 <= l < |g[i].neighbors| :: LayerChecks(params, g, i, l)
  {
    forall i, l | 0 <= i < |g| && 0 <= l < |g[i].neighbors| ensures LayerChecks(params, g, i, l) {
      assert ListOk(params, g, i, l, Adj(g, i, l));
      assert forall j | 0 <= j < |Adj(g, i, l)| :: Adj(g, i, l)[j] in Adj(g, i, l);
    }
  }

  method CheckNode(params: Params, g: Graph, idToNode: map<u64, nat>, i: nat) returns (ok: bool)
    requires i < |g|
    ensures ok <==> NodeChecks(params, g, idToNode, i)
  {
    if g[i].id !in idToNode || idToNode[g[i].id] != i { return false; }
    for l := 0 to |g[i].neighbors|
      invariant forall x | 0 <= x < l :: LayerChecks(params, g, i, x)
    {
      var adj := g[i].neighbors[l];
      if |adj| > params.MMax(l) {
        assert !LayerChecks(params, g, i, l);
        return false;
      }
      for j := 0 to |adj|
        invariant forall x | 0 <= x < j :: adj[x] < |g| && adj[x] != i
      {
        if adj[j] >= |g| || adj[j] == i {
          assert !LayerChecks(params, g, i, l);
          return false;
        }
      }
    }
    ok := true;
  }

  lemma CountStep(deleted: seq<bool>, i: nat)
    requires i < |deleted|
    ensures |LiveSet(deleted[..i + 1])| == |LiveSet(deleted[..i])| + if deleted[i] then 0 else 1
  {
    assert LiveSet(deleted[..i + 1]) == if deleted[i] then LiveSet(deleted[..i]) else LiveSet(deleted[..i]) + {i};
  }

  // ---- every history --------------------------------------------------------

  datatype Op = OpInsert(id: u64, vector: Vector) | OpDelete(id: u64)

  /** The map a history of operations amounts to; a wrong dimension is refused. */
  function History(dim: nat, ops: seq<Op>): map<u64, Vector> {
    if ops == [] then map[]
    else
      var before := History(dim, ops[..|ops| - 1]);
      match ops[|ops| - 1]
      case OpInsert(id, v) => if |v| == dim then before[id := v] else before
      case OpDelete(id) => before - {id}
  }

  /** No list on layer 0 is longer than `m0`, none above it longer than `m`. */
  lemma LayerBounds(params: Params, g: Graph)
    requires GraphOk(params, g)
    ensures forall i: nat :: |Adj(g, i, 0)| <= params.m0
    ensures forall i: nat, l: nat | l > 0 :: |Adj(g, i, l)| <= params.m
  {
    forall i: nat, l: nat ensures |Adj(g, i, l)| <= if l == 0 then params.m0 else params.m { assert ListOk(params, g, i, l, Adj(g, i, l)); }
  }

  ghost predicate StepAt(dim: nat, metric: Metric, params: Params, levelOf: u64 -> nat, trace: seq<Image>, ops: seq<Op>, i: nat)
    requires i < |ops| < |trace|
  {
    HistoryStep(dim, metric, params, levelOf, trace[i], ops[i], trace[i + 1])
  }

  /** After any sequence of inserts, replaces and deletes: every one of them changed the
      index as it should (a new point by chained wiring steps, a replacement without
      touching an edge, a deletion by a tombstone), the structure is valid and within its
      degree bounds, the runtime check passes, and the live points are those of the
      history. */
  method RunHistory(dim: nat, metric: Metric, params: Params, levelOf: u64 -> nat, seed: u64, ops: seq<Op>)
    returns (index: HnswIndex, ok: bool, ghost trace: seq<Image>)
    requires dim > 0 && params.Ok()
    ensures fresh(index) && index.Valid() && index.View() == History(dim, ops)
    ensures ok
    ensures |trace| == |ops| + 1 && trace[0] == Image([], map[], [], 0, None, seed) && trace[|ops|] == index.Value()
    ensures forall i: nat | i < |ops| :: StepAt(dim, metric, params, levelOf, trace, ops, i)
    ensures forall i: nat :: |Adj(index.nodes, i, 0)| <= params.m0
    ensures forall i: nat, l: nat | l > 0 :: |Adj(index.nodes, i, l)| <= params.m
  {
    index := new HnswIndex(dim, metric, params, levelOf, seed);
    trace := [index.Value()];
    for i := 0 to |ops|
      invariant fresh(index) && index.Valid() && index.View() == History(dim, ops[..i])
      invariant index.dim == dim && index.metric == metric && index.params == params && index.levelOf == levelOf
      invariant |trace| == i + 1 && trace[0] == Image([], map[], [], 0, None, seed) && trace[i] == index.Value()
      invariant forall j: nat | j < i :: HistoryStep(dim, metric, params, levelOf, trace[j], ops[j], trace[j + 1])
    {
      assert ops[..i + 1][..i] == ops[..i];
      RunOp(index, ops[i]);
      trace := trace + [index.Value()];
    }
    assert ops[..|ops|] == ops;
    ok := index.ValidateInvariants();
    LayerBounds(params, index.nodes);
    forall i: nat | i < |ops| ensures StepAt(dim, metric, params, levelOf, trace, ops, i) {}
  }

  method RunOp(index: HnswIndex, op: Op)
    requires index.Valid()
    modifies index
    ensures index.Valid() && HistoryStep(index.dim, index.metric, index.params, index.levelOf, old(index.Value()), op, index.Value())
    ensures index.View() ==
      match op
      case OpInsert(id, v) => if |v| == index.dim then old(index.View())[id := v] else old(index.View())
      case OpDelete(id) => old(index.View()) - {id}
  {
    match op
    case OpInsert(id, v) => var _ := index.Insert(id, v);
    case OpDelete(id) => var _ := index.Delete(id);
  }
}
