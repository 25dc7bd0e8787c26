/** Search coordination: one answer per shard, merged into a global top k
    (crates/qv-node/src/router.rs). */
module ScatterGather {
  import opened Bytes
  import opened TopK
  import opened Placement

  /** Every point of the collection with its score for the query. */
  function AllHits(scores: map<u64, int>): set<Hit> { set id | id in scores :: Hit(id, scores[id]) }

  /** The points that hash to one shard. */
  function ShardHits(p: Scheme, shardCount: u32, scores: map<u64, int>, shard: nat): set<Hit>
    requires shardCount > 0
  {
    set id | id in scores && p.ShardForId(id, shardCount) == shard :: Hit(id, scores[id])
  }

  function Parts(p: Scheme, shardCount: u32, scores: map<u64, int>): (ps: seq<set<Hit>>)
    requires shardCount > 0
    ensures |ps| == shardCount && forall s | 0 <= s < shardCount :: ps[s] == ShardHits(p, shardCount, scores, s)
  {
    seq(shardCount, s requires 0 <= s < shardCount => ShardHits(p, shardCount, scores, s))
  }

  /** Hashing puts each id in exactly one shard. */
  lemma ShardsPartition(p: Scheme, shardCount: u32, scores: map<u64, int>)
    requires shardCount > 0
    ensures Disjoint(Parts(p, shardCount, scores))
    ensures Union(Parts(p, shardCount, scores)) == AllHits(scores)
  {
    var ps := Parts(p, shardCount, scores);
    forall h ensures h in Union(ps) <==> h in AllHits(scores) {
      InUnion(ps, h);
      if h in AllHits(scores) {
        var id :| id in scores && h == Hit(id, scores[id]);
        assert h in ps[p.ShardForId(id, shardCount)];
      }
      if s :| 0 <= s < |ps| && h in ps[s] {
        assert h in ShardHits(p, shardCount, scores, s);
      }
    }
    forall i, j | 0 <= i < j < |ps| ensures ps[i] !! ps[j] {
      assert ps[i] == ShardHits(p, shardCount, scores, i) && ps[j] == ShardHits(p, shardCount, scores, j);
    }
  }

  /** If every shard answers exactly, the merge is exact over the whole collection
      and names no id twice. */
  lemma MergeIsExact(p: Scheme, shardCount: u32, scores: map<u64, int>, k: nat, outs: seq<seq<Hit>>)
    requires shardCount > 0 && AllTopK(Parts(p, shardCount, scores), k, outs)
    ensures
      var merged := Take(Sort(AtMost, Flatten(outs)), k);
      && IsTopK(AllHits(scores), k, merged)
      && forall i, j | 0 <= i < j < |merged| :: merged[i].id != merged[j].id
  {
    ShardsPartition(p, shardCount, scores);
    MergeIsTopK(Parts(p, shardCount, scores), k, outs);
    var merged := Take(Sort(AtMost, Flatten(outs)), k);
    forall i, j | 0 <= i < j < |merged| ensures merged[i].id != merged[j].id {
      assert Before(merged[i], merged[j]);
      assert merged[i] in Elems(merged) && merged[j] in Elems(merged);
    }
  }

  /** The same for answers with ties in any order, as shards that sort by distance alone
      return them: the merge lists k nearest points of the collection, no id twice. */
  lemma MergeIsNearestOverall(p: Scheme, shardCount: u32, scores: map<u64, int>, k: nat, outs: seq<seq<Hit>>)
    requires shardCount > 0 && AllNearest(Parts(p, shardCount, scores), k, outs)
    ensures
      var merged := Take(Sort(AtMost, Flatten(outs)), k);
      && IsTopKUpToTies(AllHits(scores), k, merged)
      && forall i, j | 0 <= i < j < |merged| :: merged[i].id != merged[j].id
  {
    ShardsPartition(p, shardCount, scores);
    MergeIsNearest(Parts(p, shardCount, scores), k, outs);
    var merged := Take(Sort(AtMost, Flatten(outs)), k);
    forall i, j | 0 <= i < j < |merged| ensures merged[i].id != merged[j].id {
      assert merged[i] in Elems(merged) && merged[j] in Elems(merged);
    }
  }

  // ---- the coordinator ------------------------------------------------------

  datatype SearchResult = Found(hits: seq<Hit>) | DimMismatch | NoReplica(shard: nat)

  /** A replica either answers a shard's query or cannot be reached. */
  type Answers = (nat, u64) -> Option<seq<Hit>>

  /** Active replicas first, then the rest of the replica set. */
  function Ordered(active: seq<u64>, all: seq<u64>): seq<u64> {
    active + Others(active, all)
  }

  function Others(active: seq<u64>, all: seq<u64>): (r: seq<u64>)
    ensures forall n :: n in r <==> n in all && n !in active
  {
    if all == [] then []
    else Others(active, all[..|all| - 1]) + if all[|all| - 1] in active then [] else [all[|all| - 1]]
  }

  /** `out` comes from the first replica in order that answers. */
  ghost predicate FirstAnswer(answer: Answers, shard: nat, order: seq<u64>, out: seq<Hit>) {
    exists i :: 0 <= i < |order| && answer(shard, order[i]) == Some(out) && forall j | 0 <= j < i :: answer(shard, order[j]).None?
  }

  /** An active replica that answers is always preferred to one that is still syncing. */
  lemma ActivePreferred(answer: Answers, shard: nat, active: seq<u64>, all: seq<u64>, out: seq<Hit>, n: u64)
    requires FirstAnswer(answer, shard, Ordered(active, all), out) && n in active && answer(shard, n).Some?
    ensures exists m :: m in active && answer(shard, m) == Some(out)
  {
    var order := Ordered(active, all);
    var i :| 0 <= i < |order| && answer(shard, order[i]) == Some(out) && forall j | 0 <= j < i :: answer(shard, order[j]).None?;
    var t :| 0 <= t < |active| && active[t] == n;
    assert order[t] == n;
    assert i <= t;
    assert order[i] == active[i];
  }

  /** Said without an order of its own: the first active replica that answers, in ring
      order, or if none does the first of the whole replica set that answers. */
  ghost predicate Prefers(answer: Answers, shard: nat, active: seq<u64>, all: seq<u64>, out: seq<Hit>) {
    || FirstAnswer(answer, shard, active, out)
    || ((forall n | n in active :: answer(shard, n).None?) && FirstAnswer(answer, shard, all, out))
  }

  /** The first answer of a list with one more replica at its end. */
  lemma FirstSnoc(answer: Answers, shard: nat, order: seq<u64>, x: u64, out: seq<Hit>)
    ensures FirstAnswer(answer, shard, order + [x], out) <==>
      FirstAnswer(answer, shard, order, out) || ((forall n | n in order :: answer(shard, n).None?) && answer(shard, x) == Some(out))
  {
    var more := order + [x];
    if FirstAnswer(answer, shard, more, out) {
      var i :| 0 <= i < |more| && answer(shard, more[i]) == Some(out) && forall j | 0 <= j < i :: answer(shard, more[j]).None?;
      assert forall j | 0 <= j < i && j < |order| :: order[j] == more[j];
      if i < |order| { assert order[i] == more[i]; }
    }
    if FirstAnswer(answer, shard, order, out) {
      var i :| 0 <= i < |order| && answer(shard, order[i]) == Some(out) && forall j | 0 <= j < i :: answer(shard, order[j]).None?;
      assert more[i] == order[i] && forall j | 0 <= j < i :: more[j] == order[j];
    }
    if (forall n | n in order :: answer(shard, n).None?) && answer(shard, x) == Some(out) {
      assert more[|order|] == x && forall j | 0 <= j < |order| :: more[j] in order;
    }
  }

  lemma {:induction false} FirstOfOthers(answer: Answers, shard: nat, active: seq<u64>, all: seq<u64>, out: seq<Hit>)
    requires (forall n | n in active :: answer(shard, n).None?) && FirstAnswer(answer, shard, Others(active, all), out)
    ensures FirstAnswer(answer, shard, all, out)
    decreases |all|
  {
    var n := |all| - 1;
    var init, rest, x := all[..n], Others(active, all[..n]), all[n];
    assert all == init + [x];
    FirstSnoc(answer, shard, init, x, out);
    if x in active { assert Others(active, all) == rest; } else { FirstSnoc(answer, shard, rest, x, out); }
    if FirstAnswer(answer, shard, rest, out) {
      FirstOfOthers(answer, shard, active, init, out);
    } else {
      forall m | m in init ensures answer(shard, m).None? { assert m in active || m in rest; }
    }
  }

  lemma OrderedPrefers(answer: Answers, shard: nat, active: seq<u64>, all: seq<u64>, out: seq<Hit>)
    requires FirstAnswer(answer, shard, Ordered(active, all), out)
    ensures Prefers(answer, shard, active, all, out)
  {
    var order, others := Ordered(active, all), Others(active, all);
    var i :| 0 <= i < |order| && answer(shard, order[i]) == Some(out) && forall j | 0 <= j < i :: answer(shard, order[j]).None?;
    if i < |active| {
      assert forall j | 0 <= j <= i :: order[j] == active[j];
    } else {
      var k := i - |active|;
      assert order[i] == others[k];
      forall j | 0 <= j < k ensures answer(shard, others[j]).None? { assert order[|active| + j] == others[j]; }
      forall n | n in active ensures answer(shard, n).None? {
        var t :| 0 <= t < |active| && active[t] == n;
        assert order[t] == n;
      }
      FirstOfOthers(answer, shard, active, all, out);
    }
  }

  method AskShard(answer: Answers, shard: nat, order: seq<u64>) returns (r: Option<seq<Hit>>)
    ensures r.Some? ==> FirstAnswer(answer, shard, order, r.value)
    ensures r.None? ==> forall n | n in order :: answer(shard, n).None?
  {
    for i := 0 to |order|
      invariant forall j | 0 <= j < i :: answer(shard, order[j]).None?
    {
      var a := answer(shard, order[i]);
      if a.Some? { return a; }
    }
    return None;
  }

  /** `coordinate_search`: fails exactly when some shard has no replica that answers;
      otherwise sorts and truncates the first answers of all shards. */
  method CoordinateSearch(dim: nat, query: Vector, k: nat, active: seq<seq<u64>>, all: seq<seq<u64>>, answer: Answers)
    returns (r: SearchResult, ghost outs: seq<seq<Hit>>)
    requires |active| == |all| && forall s | 0 <= s < |all| :: forall n | n in active[s] :: n in all[s]
    ensures r == DimMismatch <==> |query| != dim
    ensures r.NoReplica? ==> r.shard < |all| && forall n | n in all[r.shard] :: answer(r.shard, n).None?
    ensures r.Found? ==> |outs| == |all| && r.hits == Take(Sort(AtMost, Flatten(outs)), k)
    ensures r.Found? ==> forall s | 0 <= s < |all| :: Prefers(answer, s, active[s], all[s], outs[s])
  {
    outs := [];
    if |query| != dim { return DimMismatch, []; }
    var merged: seq<Hit> := [];
    for s := 0 to |all|
      invariant |outs| == s && merged == Flatten(outs)
      invariant forall t | 0 <= t < s :: Prefers(answer, t, active[t], all[t], outs[t])
    {
      if all[s] == [] { return NoReplica(s), []; }
      var a := AskShard(answer, s, Ordered(active[s], all[s]));
      if a.None? {
        forall n | n in all[s] ensures answer(s, n).None? { assert n in Ordered(active[s], all[s]); }
        return NoReplica(s), [];
      }
      OrderedPrefers(answer, s, active[s], all[s], a.value);
      merged := merged + a.value;
      assert (outs + [a.value])[..s] == outs;
      outs := outs + [a.value];
    }
    r := Found(Take(Sort(AtMost, merged), k));
  }
}
