/** Scatter-gather over HNSW shards against one brute-force scan of the whole
    collection (crates/qv-node/src/router.rs, crates/qv-hnsw/src/hnsw.rs,
    crates/qv-hnsw/src/index.rs). */
module GlobalSearch {
  import opened Bytes
  import opened TopK
  import opened HnswGraph
  import opened HnswSearch
  import opened HnswIndexes
  import opened Placement
  import opened ScatterGather
  import BruteForce

  /** An HNSW index as a value, with the layer-0 node where a query's descent ended. */
  datatype Index = Index(g: Graph, idToNode: map<u64, nat>, deleted: seq<bool>, live: nat, entry0: nat)

  /** The points of the collection that belong to one shard. */
  function ShardOf(p: Scheme, shardCount: u32, view: map<u64, Vector>, s: nat): map<u64, Vector>
    requires shardCount > 0
  {
    map id | id in view && p.ShardForId(id, shardCount) == s :: view[id]
  }

  function Distances(metric: Metric, view: map<u64, Vector>, query: Vector): map<u64, int> {
    map id | id in view :: metric(view[id], query)
  }

  /** The index holds exactly the shard's points, all of them reachable, and `out` is what
      a search at least as broad as the reachable set promises. */
  ghost predicate Serves(dim: nat, metric: Metric, query: Vector, k: nat, ix: Index, points: map<u64, Vector>, out: seq<Hit>) {
    && BooksOk(dim, ix.g, ix.idToNode, ix.deleted, ix.live)
    && LiveView(ix.g, ix.idToNode, ix.deleted) == points
    && (forall i: nat | i < |ix.g| && !ix.deleted[i] :: Reachable(ix.g, 0, ix.entry0, i))
    && IsTopKUpToTies(LiveReachable(metric, ix.g, ix.deleted, query, ix.entry0), k, out)
  }

  /** Such an answer is a nearest-k list of the shard's part of the collection. */
  lemma ServesItsPart(p: Scheme, shardCount: u32, dim: nat, metric: Metric, view: map<u64, Vector>, query: Vector, k: nat, s: nat, ix: Index, out: seq<Hit>)
    requires shardCount > 0 && Serves(dim, metric, query, k, ix, ShardOf(p, shardCount, view, s), out)
    ensures IsTopKUpToTies(ShardHits(p, shardCount, Distances(metric, view, query), s), k, out)
  {
    AllReachableHits(dim, metric, ix.g, ix.idToNode, ix.deleted, ix.live, query, ix.entry0);
    PartHits(p, shardCount, metric, view, query, s);
  }

  lemma PartHits(p: Scheme, shardCount: u32, metric: Metric, view: map<u64, Vector>, query: Vector, s: nat)
    requires shardCount > 0
    ensures
      var points := ShardOf(p, shardCount, view, s);
      (set id | id in points :: Hit(id, metric(points[id], query))) == ShardHits(p, shardCount, Distances(metric, view, query), s)
  {
    var points := ShardOf(p, shardCount, view, s);
    var scores := Distances(metric, view, query);
    forall h | h in ShardHits(p, shardCount, scores, s) ensures h in (set id | id in points :: Hit(id, metric(points[id], query))) {
      var id :| id in scores && p.ShardForId(id, shardCount) == s && h == Hit(id, scores[id]);
      assert id in points;
    }
  }

  lemma ScoresAreDistances(metric: Metric, view: map<u64, Vector>, query: Vector)
    requires forall a, b :: metric(a, b) == metric(b, a)
    ensures BruteForce.Scores(metric, view, query) == AllHits(Distances(metric, view, query))
  {
    var scores := Distances(metric, view, query);
    forall h ensures h in BruteForce.Scores(metric, view, query) <==> h in AllHits(scores) {
      if h in BruteForce.Scores(metric, view, query) {
        var id :| id in view && h == Hit(id, metric(query, view[id]));
        assert id in scores && h == Hit(id, scores[id]);
      }
      if h in AllHits(scores) {
        var id :| id in scores && h == Hit(id, scores[id]);
        assert id in view && h == Hit(id, metric(query, view[id]));
      }
    }
  }

  /** Broad searches on all shards, merged by the coordinator, return as many hits as one
      exact scan of the whole collection, at the same distances, and name no id twice. */
  lemma ScatterGatherMatchesOracle(p: Scheme, shardCount: u32, dim: nat, metric: Metric, view: map<u64, Vector>, query: Vector, k: nat,
                                   indexes: seq<Index>, outs: seq<seq<Hit>>, oracle: seq<Hit>)
    requires shardCount > 0 && |indexes| == |outs| == shardCount && forall a, b :: metric(a, b) == metric(b, a)
    requires forall s | 0 <= s < shardCount :: Serves(dim, metric, query, k, indexes[s], ShardOf(p, shardCount, view, s), outs[s])
    requires IsTopK(BruteForce.Scores(metric, view, query), k, oracle)
    ensures
      var merged := Take(Sort(AtMost, Flatten(outs)), k);
      && |merged| == |oracle| && (forall i | 0 <= i < |merged| :: merged[i].score == oracle[i].score)
      && forall i, j | 0 <= i < j < |merged| :: merged[i].id != merged[j].id
  {
    var scores := Distances(metric, view, query);
    forall s | 0 <= s < shardCount ensures IsTopKUpToTies(Parts(p, shardCount, scores)[s], k, outs[s]) {
      ServesItsPart(p, shardCount, dim, metric, view, query, k, s, indexes[s], outs[s]);
    }
    MergeIsNearestOverall(p, shardCount, scores, k, outs);
    ScoresAreDistances(metric, view, query);
    TopKIsTopKUpToTies(AllHits(scores), k, oracle);
    var merged := Take(Sort(AtMost, Flatten(outs)), k);
    forall i | 0 <= i < |merged| ensures merged[i].score == oracle[i].score { ScoresUnique(AllHits(scores), k, merged, oracle, i); }
  }
}
