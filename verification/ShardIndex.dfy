/** The HNSW index behind a durable shard. The index is deterministic, generator
    included, so its whole state is a function of the operations it has carried out;
    a shard over operation histories therefore says what any such shard rebuilds
    (crates/qv-storage/src/shard.rs, crates/qv-hnsw/src/hnsw.rs). */
module ShardIndex {
  import opened Bytes
  import opened HnswIndexes
  import opened HnswLinks
  import HnswGraph
  import Shards
  import ShardRuns
  import Wal
  import Lww

  /** An index named by its history. */
  function HistoryOps(dim: nat): Shards.IndexOps<seq<Op>> {
    Shards.IndexOps(
      dim,
      [],
      (ops: seq<Op>, id: u64, v: Vector) => ops + [OpInsert(id, v)],
      (ops: seq<Op>, id: u64) => ops + [OpDelete(id)],
      (ops: seq<Op>) => History(dim, ops))
  }

  lemma HistoryObeysLaws(dim: nat)
    ensures Shards.IndexLaws(HistoryOps(dim))
  {
    forall ops: seq<Op>, id: u64, v: Vector | |v| == dim ensures History(dim, ops + [OpInsert(id, v)]) == History(dim, ops)[id := v] {
      assert (ops + [OpInsert(id, v)])[..|ops|] == ops;
    }
    forall ops: seq<Op>, id: u64 ensures History(dim, ops + [OpDelete(id)]) == History(dim, ops) - {id} {
      assert (ops + [OpDelete(id)])[..|ops|] == ops;
    }
  }

  function OpOf(r: Wal.WalRecord): Op { if r.op.Upsert? then OpInsert(r.id, r.vector) else OpDelete(r.id) }

  function OpsOf(log: seq<Wal.WalRecord>): seq<Op> { seq(|log|, i requires 0 <= i < |log| => OpOf(log[i])) }

  /** The index of a shard has carried out exactly the operations of its log, in order. */
  lemma {:induction false} LogIsHistory(dim: nat, log: seq<Wal.WalRecord>)
    ensures Shards.FoldLog(HistoryOps(dim), log).index == OpsOf(log)
    decreases |log|
  {
    if log != [] {
      var n := |log| - 1;
      LogIsHistory(dim, log[..n]);
      assert OpsOf(log) == OpsOf(log[..n]) + [OpOf(log[n])];
    }
  }

  /** At every point of every run without a blind snapshot, through any crashes: the
      index has carried out exactly the operations of the surviving records, so it is
      the index (graph and generator) those records build from scratch; that index is
      valid and its live points are those whose version is not a tombstone. */
  method RebuildAt(cfg: Shards.Config<seq<Op>>, run: ShardRuns.Run<seq<Op>>, i: nat,
                   metric: HnswGraph.Metric, params: Params, levelOf: u64 -> nat, seed: u64) returns (index: HnswIndex, ok: bool)
    requires cfg.ops == HistoryOps(cfg.ops.dim) && cfg.ops.dim > 0 && params.Ok()
    requires ShardRuns.IsRun(cfg, run) && ShardRuns.NeverBlind(run) && i < |run.states|
    ensures run.states[i].mem.index == OpsOf(run.logs[i])
    ensures fresh(index) && index.Valid() && ok && index.View() == History(cfg.ops.dim, OpsOf(run.logs[i]))
    ensures forall id: u64 :: id in index.View() <==> id in run.states[i].mem.versions && !run.states[i].mem.versions[id].tombstone
  {
    HistoryObeysLaws(cfg.ops.dim);
    ShardRuns.RunMatchesSurvivingLog(cfg, run, i);
    ShardRuns.RunContents(cfg, run, i);
    LogIsHistory(cfg.ops.dim, run.logs[i]);
    ghost var trace;
    index, ok, trace := RunHistory(cfg.ops.dim, metric, params, levelOf, seed, run.states[i].mem.index);
  }
}
