/** The layered proximity graph and the two searches over it
    (crates/qv-hnsw/src/hnsw.rs). The graph is borrowed immutably by both. */
module HnswGraph {
  import opened Bytes
  import opened TopK

  /** Distance, uninterpreted. */
  type Metric = (Vector, Vector) -> int

  datatype Node = Node(id: u64, vector: Vector, neighbors: seq<seq<nat>>)

  type Graph = seq<Node>

  predicate HasLayer(g: Graph, i: nat, l: nat) { i < |g| && l < |g[i].neighbors| }

  /** The adjacency list of node `i` on layer `l`, empty above its top layer. */
  function Adj(g: Graph, i: nat, l: nat): seq<nat> {
    if HasLayer(g, i, l) then g[i].neighbors[l] else []
  }

  function Dist(metric: Metric, g: Graph, query: Vector, i: nat): int
    requires i < |g|
  {
    metric(g[i].vector, query)
  }

  /** Every edge on the layer ends at an existing node. */
  ghost predicate InRange(g: Graph, l: nat) {
    forall i, n | n in Adj(g, i, l) :: n < |g|
  }

  // ---- reachability ---------------------------------------------------------

  ghost predicate Closed(g: Graph, l: nat, s: set<nat>) {
    forall i, n | i in s && n in Adj(g, i, l) :: n in s
  }

  /** `b` lies in every set that contains `a` and is closed under the layer's edges. */
  ghost predicate Reachable(g: Graph, l: nat, a: nat, b: nat) {
    forall s: set<nat> {:trigger Closed(g, l, s)} | Closed(g, l, s) && a in s :: b in s
  }

  ghost predicate IsPath(g: Graph, l: nat, p: seq<nat>) {
    p != [] && forall i | 0 < i < |p| :: p[i] in Adj(g, p[i - 1], l)
  }

  lemma ReachableSelf(g: Graph, l: nat, a: nat)
    ensures Reachable(g, l, a, a)
  {}

  lemma ReachableStep(g: Graph, l: nat, a: nat, b: nat, c: nat)
    requires Reachable(g, l, a, b) && c in Adj(g, b, l)
    ensures Reachable(g, l, a, c)
  {}

  predicate IsIndex(g: Graph, i: nat) { i < |g| }

  function Indices(g: Graph): set<nat> { set i: nat | i < |g| && IsIndex(g, i) }

  lemma {:induction false} PathReaches(g: Graph, l: nat, p: seq<nat>)
    requires IsPath(g, l, p)
    ensures Reachable(g, l, p[0], p[|p| - 1])
    decreases |p|
  {
    if |p| > 1 {
      var q := p[..|p| - 1];
      PathReaches(g, l, q);
      assert p[|p| - 1] in Adj(g, p[|p| - 2], l);
      ReachableStep(g, l, p[0], q[|q| - 1], p[|p| - 1]);
    }
  }

  ghost predicate HasPath(g: Graph, l: nat, a: nat, b: nat) {
    exists p :: IsPath(g, l, p) && p[0] == a && p[|p| - 1] == b
  }

  lemma PathExtends(g: Graph, l: nat, a: nat, b: nat, c: nat)
    requires HasPath(g, l, a, b) && c in Adj(g, b, l)
    ensures HasPath(g, l, a, c)
  {
    var p :| IsPath(g, l, p) && p[0] == a && p[|p| - 1] == b;
    var q := p + [c];
    assert IsPath(g, l, q) && q[0] == a && q[|q| - 1] == c;
  }

  /** The closed-set reading and the path reading of reachability agree. */
  lemma ReachableIffPath(g: Graph, l: nat, a: nat, b: nat)
    requires InRange(g, l) && a < |g|
    ensures Reachable(g, l, a, b) <==> HasPath(g, l, a, b)
  {
    if HasPath(g, l, a, b) {
      var p :| IsPath(g, l, p) && p[0] == a && p[|p| - 1] == b;
      PathReaches(g, l, p);
    }
    var s := set i | i in Indices(g) && HasPath(g, l, a, i);
    forall i, n | i in s && n in Adj(g, i, l) ensures n in s { PathExtends(g, l, a, i, n); }
    assert IsPath(g, l, [a]);
    assert Closed(g, l, s) && a in s;
  }

  // ---- greedy descent -------------------------------------------------------

  /** No neighbour of `i` on the layer is strictly closer to the query. */
  ghost predicate LocalMinimum(metric: Metric, g: Graph, query: Vector, l: nat, i: nat)
    requires InRange(g, l) && i < |g|
  {
    forall n | n in Adj(g, i, l) :: n < |g| && Dist(metric, g, query, i) <= Dist(metric, g, query, n)
  }

  ghost function Closer(metric: Metric, g: Graph, query: Vector, d: int): set<nat> {
    set i: nat | i < |g| && Dist(metric, g, query, i) < d
  }

  /** Hop to ever closer neighbours. Each round strictly shrinks the set of nodes
      closer than the current one, although the current node moves mid-scan. */
  method GreedySearchLayer(metric: Metric, g: Graph, query: Vector, entry: nat, l: nat) returns (current: nat)
    requires entry < |g| && InRange(g, l)
    ensures current < |g| && Reachable(g, l, entry, current)
    ensures Dist(metric, g, query, current) <= Dist(metric, g, query, entry)
    ensures LocalMinimum(metric, g, query, l, current)
  {
    current := entry;
    var currentDist := Dist(metric, g, query, current);
    while true
      invariant current < |g| && currentDist == Dist(metric, g, query, current) <= Dist(metric, g, query, entry)
      invariant Reachable(g, l, entry, current)
      decreases Closer(metric, g, query, currentDist)
    {
      var improved := false;
      var from := current;
      ghost var fromDist := currentDist;
      var adj := Adj(g, from, l);
      for j := 0 to |adj|
        invariant current < |g| && currentDist == Dist(metric, g, query, current) <= fromDist
        invariant Reachable(g, l, entry, current)
        invariant if improved then currentDist < fromDist else current == from
        invariant forall x | 0 <= x < j :: adj[x] < |g| && currentDist <= Dist(metric, g, query, adj[x])
      {
        assert adj[j] in adj;
        var d := Dist(metric, g, query, adj[j]);
        if d < currentDist {
          ReachableStep(g, l, entry, from, adj[j]);
          currentDist := d;
          current := adj[j];
          improved := true;
        }
      }
      if !improved {
        return;
      }
      assert current in Closer(metric, g, query, fromDist) - Closer(metric, g, query, currentDist);
    }
  }

  // ---- the two heaps --------------------------------------------------------

  /** Heap order: distance, then node index. */
  predicate Nearer(metric: Metric, g: Graph, query: Vector, a: nat, b: nat)
    requires a < |g| && b < |g|
  {
    Before(Hit(a, Dist(metric, g, query, a)), Hit(b, Dist(metric, g, query, b)))
  }

  predicate IsNearest(metric: Metric, g: Graph, query: Vector, heap: set<nat>, c: nat)
    requires heap <= Indices(g)
  {
    c in heap && forall x | x in heap && x != c :: Nearer(metric, g, query, c, x)
  }

  predicate IsFarthest(metric: Metric, g: Graph, query: Vector, heap: set<nat>, c: nat)
    requires heap <= Indices(g)
  {
    c in heap && forall x | x in heap && x != c :: Nearer(metric, g, query, x, c)
  }

  lemma ExtendNearest(metric: Metric, g: Graph, query: Vector, heap: set<nat>, a: nat, c: nat)
    requires heap <= Indices(g) && a in heap && IsNearest(metric, g, query, heap - {a}, c)
    ensures IsNearest(metric, g, query, heap, if Nearer(metric, g, query, a, c) then a else c)
  {
    forall x | x in heap && x != a && x != c ensures Nearer(metric, g, query, c, x) { assert x in heap - {a}; }
  }

  lemma ExtendFarthest(metric: Metric, g: Graph, query: Vector, heap: set<nat>, a: nat, c: nat)
    requires heap <= Indices(g) && a in heap && IsFarthest(metric, g, query, heap - {a}, c)
    ensures IsFarthest(metric, g, query, heap, if Nearer(metric, g, query, a, c) then c else a)
  {
    forall x | x in heap && x != a && x != c ensures Nearer(metric, g, query, x, c) { assert x in heap - {a}; }
  }

  lemma {:induction false} TopsExist(metric: Metric, g: Graph, query: Vector, heap: set<nat>)
    requires heap != {} && heap <= Indices(g)
    ensures exists c :: IsNearest(metric, g, query, heap, c)
    ensures exists c :: IsFarthest(metric, g, query, heap, c)
    decreases heap
  {
    var a :| a in heap;
    if heap == {a} {
      assert IsNearest(metric, g, query, heap, a) && IsFarthest(metric, g, query, heap, a);
    } else {
      TopsExist(metric, g, query, heap - {a});
      var c :| IsNearest(metric, g, query, heap - {a}, c);
      ExtendNearest(metric, g, query, heap, a, c);
      var d :| IsFarthest(metric, g, query, heap - {a}, d);
      ExtendFarthest(metric, g, query, heap, a, d);
    }
  }

  /** The top of the min-heap of candidates. */
  method PeekNearest(metric: Metric, g: Graph, query: Vector, heap: set<nat>) returns (c: nat)
    requires heap != {} && heap <= Indices(g)
    ensures IsNearest(metric, g, query, heap, c)
  {
    TopsExist(metric, g, query, heap);
    c :| c in heap && IsNearest(metric, g, query, heap, c);
  }

  /** The top of the max-heap of results. */
  method PeekFarthest(metric: Metric, g: Graph, query: Vector, heap: set<nat>) returns (c: nat)
    requires heap != {} && heap <= Indices(g)
    ensures IsFarthest(metric, g, query, heap, c)
  {
    TopsExist(metric, g, query, heap);
    c :| c in heap && IsFarthest(metric, g, query, heap, c);
  }

  // ---- best-first search ----------------------------------------------------

  /** `results` holds the `cap` nearest visited nodes, everything visited is
      reachable, and every result is still queued or has had its edges followed. */
  ghost predicate SearchInv(metric: Metric, g: Graph, query: Vector, l: nat, entry: nat, cap: nat,
                            visited: set<nat>, results: set<nat>, queued: set<nat>)
  {
    && entry in visited && results <= visited <= Indices(g) && queued <= visited && results != {}
    && (forall v | v in visited :: Reachable(g, l, entry, v))
    && |results| == Min(cap, |visited|)
    && (forall v, r | v in visited && v !in results && r in results :: Dist(metric, g, query, r) <= Dist(metric, g, query, v))
    && (forall r | r in results && r !in queued :: Expanded(g, l, visited, r))
  }

  ghost predicate Expanded(g: Graph, l: nat, visited: set<nat>, r: nat) {
    forall n | n in Adj(g, r, l) :: n in visited
  }

  lemma SubsetCard(a: set<nat>, b: set<nat>)
    requires a <= b
    ensures |a| <= |b| && (|a| == |b| ==> a == b)
  {
    assert b == a + (b - a);
    assert |b| == |a| + |b - a|;
  }

  /** Meeting a new node that is kept, with room to spare. */
  lemma VisitKeepsRoom(metric: Metric, g: Graph, query: Vector, l: nat, entry: nat, cap: nat,
                       visited: set<nat>, results: set<nat>, queued: set<nat>, n: nat)
    requires SearchInv(metric, g, query, l, entry, cap, visited, results, queued)
    requires n < |g| && n !in visited && Reachable(g, l, entry, n) && |results| < cap
    ensures SearchInv(metric, g, query, l, entry, cap, visited + {n}, results + {n}, queued + {n})
  {
    SubsetCard(results, visited);
  }

  /** Meeting a new node that displaces the farthest result. */
  lemma VisitDisplaces(metric: Metric, g: Graph, query: Vector, l: nat, entry: nat, cap: nat,
                       visited: set<nat>, results: set<nat>, queued: set<nat>, n: nat, worst: nat)
    requires SearchInv(metric, g, query, l, entry, cap, visited, results, queued) && cap >= 1
    requires n < |g| && n !in visited && Reachable(g, l, entry, n) && |results| >= cap
    requires worst in results && forall r | r in results :: Dist(metric, g, query, r) <= Dist(metric, g, query, worst)
    requires Dist(metric, g, query, n) < Dist(metric, g, query, worst)
    ensures SearchInv(metric, g, query, l, entry, cap, visited + {n}, results + {n} - {worst}, queued + {n})
  {}

  /** Meeting a new node that is too far to keep. */
  lemma VisitRejects(metric: Metric, g: Graph, query: Vector, l: nat, entry: nat, cap: nat,
                     visited: set<nat>, results: set<nat>, queued: set<nat>, n: nat, worst: nat)
    requires SearchInv(metric, g, query, l, entry, cap, visited, results, queued) && cap >= 1
    requires n < |g| && n !in visited && Reachable(g, l, entry, n) && |results| >= cap
    requires worst in results && forall r | r in results :: Dist(metric, g, query, r) <= Dist(metric, g, query, worst)
    requires Dist(metric, g, query, n) >= Dist(metric, g, query, worst)
    ensures SearchInv(metric, g, query, l, entry, cap, visited + {n}, results, queued)
  {}

  /** What a layer search returns: `cap` nearest of the visited reachable nodes, and
      all of their neighbours were visited. */
  ghost predicate IsLayerSearch(metric: Metric, g: Graph, query: Vector, entry: nat, ef: nat, l: nat,
                                found: seq<Hit>, visited: set<nat>)
  {
    && entry in visited && visited <= Indices(g)
    && (forall v | v in visited :: Reachable(g, l, entry, v))
    && (forall h | h in found :: h.id in visited && h.score == Dist(metric, g, query, h.id))
    && (forall i, j | 0 <= i < j < |found| :: found[i].id != found[j].id)
    && |found| == Min(if ef == 0 then 1 else ef, |visited|)
    && (forall v, h | v in visited && h in found && Hit(v, Dist(metric, g, query, v)) !in found :: h.score <= Dist(metric, g, query, v))
    && (forall h | h in found :: Expanded(g, l, visited, h.id))
  }

  /** Visit one neighbour not seen before: keep it if it beats the farthest result or
      there is room, and drop the farthest result if there are now too many. */
  method VisitNeighbor(metric: Metric, g: Graph, query: Vector, l: nat, ef: nat, n: nat,
                       visited: set<nat>, results0: set<nat>, candidates0: set<nat>, ghost entry: nat, ghost queued: set<nat>)
    returns (results: set<nat>, candidates: set<nat>)
    requires SearchInv(metric, g, query, l, entry, if ef == 0 then 1 else ef, visited, results0, candidates0 + queued)
    requires n < |g| && n !in visited && Reachable(g, l, entry, n)
    ensures SearchInv(metric, g, query, l, entry, if ef == 0 then 1 else ef, visited + {n}, results, candidates + queued)
  {
    results, candidates := results0, candidates0;
    ghost var cap := if ef == 0 then 1 else ef;
    var worst := PeekFarthest(metric, g, query, results);
    if Dist(metric, g, query, n) < Dist(metric, g, query, worst) || |results| < ef {
      candidates := candidates + {n};
      assert candidates + queued == candidates0 + queued + {n};
      results := results + {n};
      assert |results| == |results0| + 1;
      if |results| > ef {
        var farthest := PeekFarthest(metric, g, query, results);
        assert farthest == worst;
        VisitDisplaces(metric, g, query, l, entry, cap, visited, results0, candidates0 + queued, n, worst);
        results := results - {farthest};
      } else {
        VisitKeepsRoom(metric, g, query, l, entry, cap, visited, results0, candidates0 + queued, n);
      }
    } else {
      VisitRejects(metric, g, query, l, entry, cap, visited, results0, candidates0 + queued, n, worst);
    }
  }

  /** Expand one popped candidate: visit each neighbour not seen before. */
  method ExpandCandidate(metric: Metric, g: Graph, query: Vector, l: nat, ef: nat, c: nat,
                         visited0: set<nat>, results0: set<nat>, candidates0: set<nat>, ghost entry: nat)
    returns (visited: set<nat>, results: set<nat>, candidates: set<nat>)
    requires InRange(g, l) && c in visited0
    requires SearchInv(metric, g, query, l, entry, if ef == 0 then 1 else ef, visited0, results0, candidates0 + {c})
    ensures SearchInv(metric, g, query, l, entry, if ef == 0 then 1 else ef, visited, results, candidates)
    ensures visited0 <= visited && (visited == visited0 ==> candidates == candidates0)
  {
    visited, results, candidates := visited0, results0, candidates0;
    ghost var cap := if ef == 0 then 1 else ef;
    var adj := Adj(g, c, l);
    for j := 0 to |adj|
      invariant SearchInv(metric, g, query, l, entry, cap, visited, results, candidates + {c})
      invariant visited0 <= visited && (visited == visited0 ==> candidates == candidates0)
      invariant forall x | 0 <= x < j :: adj[x] in visited
    {
      var n := adj[j];
      if n !in visited {
        assert n in Adj(g, c, l);
        ReachableStep(g, l, entry, c, n);
        results, candidates := VisitNeighbor(metric, g, query, l, ef, n, visited, results, candidates, entry, {c});
        visited := visited + {n};
      }
    }
    CandidateExpanded(metric, g, query, l, entry, cap, visited, results, candidates, c);
  }

  lemma CandidateExpanded(metric: Metric, g: Graph, query: Vector, l: nat, entry: nat, cap: nat,
                          visited: set<nat>, results: set<nat>, candidates: set<nat>, c: nat)
    requires SearchInv(metric, g, query, l, entry, cap, visited, results, candidates + {c})
    requires forall x | 0 <= x < |Adj(g, c, l)| :: Adj(g, c, l)[x] in visited
    ensures SearchInv(metric, g, query, l, entry, cap, visited, results, candidates)
  {}

  /** Best-first search with a bounded result heap and an early stop. The results
      come back in no particular order; an `ef` of zero acts like one. */
  method SearchLayer(metric: Metric, g: Graph, query: Vector, entry: nat, ef: nat, l: nat)
    returns (found: seq<Hit>, ghost visited: set<nat>)
    requires entry < |g| && InRange(g, l)
    ensures IsLayerSearch(metric, g, query, entry, ef, l, found, visited)
    ensures found != [] && forall h | h in found :: h.id < |g| && Reachable(g, l, entry, h.id) && h.score == Dist(metric, g, query, h.id)
  {
    var seen, candidates, results := {entry}, {entry}, {entry};
    ghost var cap := if ef == 0 then 1 else ef;
    ReachableSelf(g, l, entry);
    while candidates != {}
      invariant SearchInv(metric, g, query, l, entry, cap, seen, results, candidates)
      decreases Indices(g) - seen, candidates
    {
      var c := PeekNearest(metric, g, query, candidates);
      var rest := candidates - {c};
      var worst := PeekFarthest(metric, g, query, results);
      if Dist(metric, g, query, c) > Dist(metric, g, query, worst) && |results| >= ef {
        candidates := {};
        break;
      }
      assert rest + {c} == candidates;
      seen, results, candidates := ExpandCandidate(metric, g, query, l, ef, c, seen, results, rest, entry);
    }
    visited := seen;
    found := Drain(metric, g, query, results);
    forall v, h | v in visited && h in found && Hit(v, Dist(metric, g, query, v)) !in found
      ensures h.score <= Dist(metric, g, query, v)
    {
      assert v !in results;
    }
  }

  /** `into_iter().collect()` on the result heap: each node once with its distance. */
  method Drain(metric: Metric, g: Graph, query: Vector, heap: set<nat>) returns (found: seq<Hit>)
    requires heap <= Indices(g)
    ensures |found| == |heap|
    ensures forall h :: h in found <==> h.id in heap && h.score == Dist(metric, g, query, h.id)
    ensures forall i, j | 0 <= i < j < |found| :: found[i].id != found[j].id
  {
    found := [];
    var todo := heap;
    while todo != {}
      invariant todo <= heap && |found| == |heap| - |todo|
      invariant forall h :: h in found <==> h.id in heap - todo && h.score == Dist(metric, g, query, h.id)
      invariant forall i, j | 0 <= i < j < |found| :: found[i].id != found[j].id
      decreases todo
    {
      var n :| n in todo;
      todo := todo - {n};
      found := found + [Hit(n, Dist(metric, g, query, n))];
    }
  }
}
