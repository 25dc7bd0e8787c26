/** From layer-0 search results to the answer of a k-NN query
    (crates/qv-hnsw/src/hnsw.rs). */
module HnswSearch {
  import opened Bytes
  import opened TopK
  import opened HnswGraph
  import opened HnswLinks
  import BruteForce

  ghost function ReachSet(g: Graph, l: nat, e: nat): set<nat> { set i | i in Indices(g) && Reachable(g, l, e, i) }

  /** A search at least as broad as the reachable set finds all of it. */
  lemma BroadSearchFindsAll(metric: Metric, g: Graph, query: Vector, e: nat, ef: nat, l: nat, found: seq<Hit>, visited: set<nat>)
    requires IsLayerSearch(metric, g, query, e, ef, l, found, visited) && ef >= |ReachSet(g, l, e)|
    ensures visited == ReachSet(g, l, e)
    ensures forall i | i in visited :: Hit(i, Dist(metric, g, query, i)) in found
  {
    assert visited <= ReachSet(g, l, e);
    SubsetCard(visited, ReachSet(g, l, e));
    assert |visited| >= 1;
    FoundCovers(metric, g, query, found, visited);
    assert Closed(g, l, visited) by {
      forall i, n | i in visited && n in Adj(g, i, l) ensures n in visited {
        assert Expanded(g, l, visited, Hit(i, Dist(metric, g, query, i)).id);
      }
    }
  }

  /** As many distinct found nodes as visited ones means every visited one. */
  lemma FoundCovers(metric: Metric, g: Graph, query: Vector, found: seq<Hit>, visited: set<nat>)
    requires visited <= Indices(g) && |found| == |visited| && DistinctIds(found)
    requires forall h | h in found :: h.id in visited && h.score == Dist(metric, g, query, h.id)
    ensures forall i | i in visited :: Hit(i, Dist(metric, g, query, i)) in found
  {
    var ids := set h | h in found :: h.id;
    IdCount(found);
    SubsetCard(ids, visited);
    forall i | i in visited ensures Hit(i, Dist(metric, g, query, i)) in found {
      var h :| h in found && h.id == i;
    }
  }

  lemma {:induction false} IdCount(found: seq<Hit>)
    requires DistinctIds(found)
    ensures |set h | h in found :: h.id| == |found|
    decreases |found|
  {
    if found != [] {
      var init, last := found[..|found| - 1], found[|found| - 1];
      IdCount(init);
      assert last.id !in (set h | h in init :: h.id);
      assert found == init + [last];
      assert (set h | h in found :: h.id) == (set h | h in init :: h.id) + {last.id};
    }
  }

  /** Tombstones skipped, node indices mapped to ids. */
  function LiveHits(g: Graph, deleted: seq<bool>, cs: seq<Hit>): seq<Hit>
    requires |deleted| == |g| && InGraph(g, cs)
  {
    if cs == [] then []
    else
      var init, last := cs[..|cs| - 1], cs[|cs| - 1];
      LiveHits(g, deleted, init) + if deleted[last.id] then [] else [Hit(g[last.id].id, last.score)]
  }

  /** The final loop: walk the sorted list, skip tombstones, stop at `k`. */
  method TakeLive(g: Graph, deleted: seq<bool>, cs: seq<Hit>, k: nat) returns (out: seq<Hit>)
    requires |deleted| == |g| && InGraph(g, cs) && k > 0
    ensures out == Take(LiveHits(g, deleted, cs), k)
  {
    out := [];
    for i := 0 to |cs|
      invariant out == LiveHits(g, deleted, cs[..i]) && |out| < k
    {
      assert cs[..i + 1][..i] == cs[..i];
      if !deleted[cs[i].id] {
        out := out + [Hit(g[cs[i].id].id, cs[i].score)];
        if |out| == k {
          LiveHitsPrefix(g, deleted, cs, i + 1);
          return;
        }
      }
    }
    assert cs[..|cs|] == cs;
  }

  lemma {:induction false} LiveHitsPrefix(g: Graph, deleted: seq<bool>, cs: seq<Hit>, i: nat)
    requires |deleted| == |g| && InGraph(g, cs) && i <= |cs|
    ensures LiveHits(g, deleted, cs[..i]) <= LiveHits(g, deleted, cs)
    decreases |cs|
  {
    if i < |cs| {
      var init := cs[..|cs| - 1];
      LiveHitsPrefix(g, deleted, init, i);
      assert init[..i] == cs[..i];
    } else {
      assert cs[..i] == cs;
    }
  }

  ghost predicate IdsUnique(g: Graph) { forall i, j | 0 <= i < j < |g| :: g[i].id != g[j].id }

  ghost predicate Ascending(hs: seq<Hit>) { forall i, j | 0 <= i < j < |hs| :: hs[i].score <= hs[j].score }

  /** `x` is the answer entry of some live node in the list. */
  ghost predicate FromLive(g: Graph, deleted: seq<bool>, cs: seq<Hit>, x: Hit)
    requires |deleted| == |g| && InGraph(g, cs)
  {
    exists i :: 0 <= i < |cs| && !deleted[cs[i].id] && x == Hit(g[cs[i].id].id, cs[i].score)
  }

  lemma {:induction false} LiveHitsSpec(g: Graph, deleted: seq<bool>, cs: seq<Hit>)
    requires |deleted| == |g| && InGraph(g, cs) && IdsUnique(g) && DistinctIds(cs) && Ascending(cs)
    ensures forall x :: x in LiveHits(g, deleted, cs) <==> FromLive(g, deleted, cs, x)
    ensures DistinctIds(LiveHits(g, deleted, cs)) && Ascending(LiveHits(g, deleted, cs))
    decreases |cs|
  {
    if cs != [] {
      var n := |cs| - 1;
      var init, last := cs[..n], cs[n];
      LiveHitsSpec(g, deleted, init);
      var prev := LiveHits(g, deleted, init);
      var y := Hit(g[last.id].id, last.score);
      forall x ensures FromLive(g, deleted, cs, x) <==> FromLive(g, deleted, init, x) || (!deleted[last.id] && x == y) {
        FromLiveSnoc(g, deleted, cs, x);
      }
      forall i | 0 <= i < |prev| ensures prev[i].score <= y.score && prev[i].id != y.id {
        assert prev[i] in prev;
        var j :| 0 <= j < |init| && !deleted[init[j].id] && prev[i] == Hit(g[init[j].id].id, init[j].score);
        assert init[j] == cs[j];
      }
    }
  }

  lemma FromLiveSnoc(g: Graph, deleted: seq<bool>, cs: seq<Hit>, x: Hit)
    requires |deleted| == |g| && InGraph(g, cs) && cs != []
    ensures
      var n := |cs| - 1;
      FromLive(g, deleted, cs, x) <==> FromLive(g, deleted, cs[..n], x) || (!deleted[cs[n].id] && x == Hit(g[cs[n].id].id, cs[n].score))
  {}

  lemma AscendingTake(hs: seq<Hit>, k: nat)
    requires DistinctIds(hs) && Ascending(hs)
    ensures IsTopKUpToTies(Elems(hs), k, Take(hs, k))
  {
    assert Distinct(hs);
    DistinctSize(hs);
    var out := Take(hs, k);
    assert forall i | 0 <= i < |out| :: out[i] == hs[i];
    forall h, x | h in Elems(hs) && h !in out && x in out ensures x.score <= h.score {
      var i :| 0 <= i < |hs| && hs[i] == h;
      var j :| 0 <= j < |out| && out[j] == x;
    }
  }

  /** Every live node among the found ones, as an answer entry. */
  ghost function LiveFound(g: Graph, deleted: seq<bool>, found: seq<Hit>): set<Hit>
    requires |deleted| == |g|
  {
    set h | h in found && h.id < |g| && !deleted[h.id] :: Hit(g[h.id].id, h.score)
  }

  /** Sorting, dropping tombstones and truncating gives `k` nearest live found nodes. */
  lemma RankedIsNearest(g: Graph, deleted: seq<bool>, found: seq<Hit>, cs: seq<Hit>, k: nat)
    requires |deleted| == |g| && IdsUnique(g) && InGraph(g, cs) && DistinctIds(cs) && Ascending(cs) && forall h :: h in cs <==> h in found
    ensures IsTopKUpToTies(LiveFound(g, deleted, found), k, Take(LiveHits(g, deleted, cs), k))
  {
    LiveHitsSpec(g, deleted, cs);
    forall x ensures x in LiveHits(g, deleted, cs) <==> x in LiveFound(g, deleted, found) {
      if FromLive(g, deleted, cs, x) {
        var i :| 0 <= i < |cs| && !deleted[cs[i].id] && x == Hit(g[cs[i].id].id, cs[i].score);
        assert cs[i] in found;
      }
      if x in LiveFound(g, deleted, found) {
        var h :| h in found && h.id < |g| && !deleted[h.id] && x == Hit(g[h.id].id, h.score);
        var j :| 0 <= j < |cs| && cs[j] == h;
      }
    }
    assert Elems(LiveHits(g, deleted, cs)) == LiveFound(g, deleted, found);
    AscendingTake(LiveHits(g, deleted, cs), k);
  }

  /** Every live node reachable from `e` on layer 0, as an answer entry. */
  ghost function LiveReachable(metric: Metric, g: Graph, deleted: seq<bool>, query: Vector, e: nat): set<Hit>
    requires |deleted| == |g|
  {
    set i | i in ReachSet(g, 0, e) && !deleted[i] :: Hit(g[i].id, Dist(metric, g, query, i))
  }

  /** The sorted, filtered and truncated results of a broad layer-0 search are exactly
      `k` nearest of the live reachable points. */
  lemma BroadSearchIsTopK(metric: Metric, g: Graph, deleted: seq<bool>, query: Vector, e: nat, ef: nat, k: nat,
                          found: seq<Hit>, visited: set<nat>, cs: seq<Hit>)
    requires |deleted| == |g| && IdsUnique(g) && IsLayerSearch(metric, g, query, e, ef, 0, found, visited)
    requires InGraph(g, cs) && DistinctIds(cs) && Ascending(cs) && (forall h :: h in cs <==> h in found)
    requires ef >= |ReachSet(g, 0, e)|
    ensures IsTopKUpToTies(LiveReachable(metric, g, deleted, query, e), k, Take(LiveHits(g, deleted, cs), k))
  {
    BroadSearchFindsAll(metric, g, query, e, ef, 0, found, visited);
    LiveHitsSpec(g, deleted, cs);
    forall x ensures x in LiveHits(g, deleted, cs) <==> x in LiveReachable(metric, g, deleted, query, e) {
      HitIffReachable(metric, g, deleted, query, e, ef, found, visited, cs, x);
    }
    assert Elems(LiveHits(g, deleted, cs)) == LiveReachable(metric, g, deleted, query, e);
    AscendingTake(LiveHits(g, deleted, cs), k);
  }

  /** One entry: it stems from a live result exactly when it stems from a live reachable node. */
  lemma HitIffReachable(metric: Metric, g: Graph, deleted: seq<bool>, query: Vector, e: nat, ef: nat,
                        found: seq<Hit>, visited: set<nat>, cs: seq<Hit>, x: Hit)
    requires |deleted| == |g| && IsLayerSearch(metric, g, query, e, ef, 0, found, visited)
    requires InGraph(g, cs) && (forall h :: h in cs <==> h in found) && visited == ReachSet(g, 0, e)
    requires forall i | i in visited :: Hit(i, Dist(metric, g, query, i)) in found
    ensures FromLive(g, deleted, cs, x) <==> x in LiveReachable(metric, g, deleted, query, e)
  {
    if FromLive(g, deleted, cs, x) {
      var i :| 0 <= i < |cs| && !deleted[cs[i].id] && x == Hit(g[cs[i].id].id, cs[i].score);
      assert cs[i] in found;
      assert cs[i].id in ReachSet(g, 0, e);
    }
    if x in LiveReachable(metric, g, deleted, query, e) {
      var i :| i in ReachSet(g, 0, e) && !deleted[i] && x == Hit(g[i].id, Dist(metric, g, query, i));
      assert Hit(i, Dist(metric, g, query, i)) in cs;
      var j :| 0 <= j < |cs| && cs[j] == Hit(i, Dist(metric, g, query, i));
    }
  }

  /** When the oracle and the graph answer over the same points with a symmetric
      distance, they return equally many hits with the same distances. */
  lemma MatchesOracle(metric: Metric, view: map<u64, Vector>, query: Vector, k: nat, cands: set<Hit>, out: seq<Hit>, oracle: seq<Hit>)
    requires cands == (set id | id in view :: Hit(id, metric(view[id], query)))
    requires forall a, b :: metric(a, b) == metric(b, a)
    requires IsTopKUpToTies(cands, k, out) && IsTopK(BruteForce.Scores(metric, view, query), k, oracle)
    ensures |out| == |oracle| && forall i | 0 <= i < |out| :: out[i].score == oracle[i].score
  {
    forall id | id in view ensures metric(view[id], query) == metric(query, view[id]) {}
    assert cands == BruteForce.Scores(metric, view, query);
    TopKIsTopKUpToTies(cands, k, oracle);
    forall i | 0 <= i < |out| ensures out[i].score == oracle[i].score { ScoresUnique(cands, k, out, oracle, i); }
  }
}
