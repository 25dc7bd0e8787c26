/** The durable hint file and the protocol's hint log are one thing: buffering and
    replaying through the file (crates/qv-storage/src/hints.rs,
    crates/qv-node/src/node_state.rs) keep its contents for a shard equal to the log the
    protocol reasons about (crates/qv-node/src/router.rs). */
module HintBridge {
  import opened Bytes
  import opened Coordinator
  import opened FramedLog
  import Replication
  import Hints
  import Wal
  import ShardRuns

  /** A file may hold hints of many shards. */
  datatype Shard = Shard(collection: seq<byte>, index: u32)

  predicate Concerns(sh: Shard, h: Hints.Hint) { h.collection == sh.collection && h.shard == sh.index }

  function ToProtocol(h: Hints.Hint): Replication.Hint { Replication.Hint(h.target, ShardRuns.WriteOf(h.write)) }

  /** The protocol's log for one shard: the file's hints for it, in order. */
  function Image(sh: Shard, hs: seq<Hints.Hint>): seq<Replication.Hint> {
    if hs == [] then []
    else
      var n := |hs| - 1;
      Image(sh, hs[..n]) + if Concerns(sh, hs[n]) then [ToProtocol(hs[n])] else []
  }

  function OutcomesFor(sh: Shard, hs: seq<Hints.Hint>, os: seq<Outcome>): seq<Outcome>
    requires |hs| == |os|
  {
    if hs == [] then []
    else
      var n := |hs| - 1;
      OutcomesFor(sh, hs[..n], os[..n]) + if Concerns(sh, hs[n]) then [os[n]] else []
  }

  /** What `replay_hints` keeps of the whole file. */
  function KeptInFile(hs: seq<Hints.Hint>, os: seq<Outcome>, known: set<u64>): seq<Hints.Hint>
    requires |hs| == |os|
  {
    if hs == [] then []
    else
      var n := |hs| - 1;
      KeptInFile(hs[..n], os[..n], known) + if Pushed(ToProtocol(hs[n]), os[n], known) then [] else [hs[n]]
  }

  lemma {:induction false} OneOutcomeEach(sh: Shard, hs: seq<Hints.Hint>, os: seq<Outcome>)
    requires |hs| == |os|
    ensures |OutcomesFor(sh, hs, os)| == |Image(sh, hs)|
    decreases |hs|
  {
    if hs != [] { OneOutcomeEach(sh, hs[..|hs| - 1], os[..|hs| - 1]); }
  }

  lemma {:induction false} KeptFromFile(hs: seq<Hints.Hint>, os: seq<Outcome>, known: set<u64>)
    requires |hs| == |os|
    ensures forall h | h in KeptInFile(hs, os, known) :: h in hs
    decreases |hs|
  {
    if hs != [] { KeptFromFile(hs[..|hs| - 1], os[..|hs| - 1], known); }
  }

  lemma ImageSnoc(sh: Shard, hs: seq<Hints.Hint>, h: Hints.Hint)
    ensures Image(sh, hs + [h]) == Image(sh, hs) + if Concerns(sh, h) then [ToProtocol(h)] else []
  {
    assert (hs + [h])[..|hs|] == hs;
  }

  lemma KeptSnoc(hs: seq<Replication.Hint>, os: seq<Outcome>, known: set<u64>, h: Replication.Hint, o: Outcome)
    requires |hs| == |os|
    ensures Kept(hs + [h], os + [o], known) == Kept(hs, os, known) + if Pushed(h, o, known) then [] else [h]
  {
    assert (hs + [h])[..|hs|] == hs && (os + [o])[..|os|] == os;
  }

  /** Filtering the file for a shard and replaying that log gives the same as replaying
      the file and filtering what is kept. */
  lemma {:induction false} ImageOfKept(sh: Shard, hs: seq<Hints.Hint>, os: seq<Outcome>, known: set<u64>)
    requires |hs| == |os|
    ensures |OutcomesFor(sh, hs, os)| == |Image(sh, hs)|
    ensures Image(sh, KeptInFile(hs, os, known)) == Kept(Image(sh, hs), OutcomesFor(sh, hs, os), known)
    decreases |hs|
  {
    OneOutcomeEach(sh, hs, os);
    if hs != [] {
      var n := |hs| - 1;
      ImageOfKept(sh, hs[..n], os[..n], known);
      var keep, log, outs := KeptInFile(hs[..n], os[..n], known), Image(sh, hs[..n]), OutcomesFor(sh, hs[..n], os[..n]);
      ImageSnoc(sh, keep, hs[n]);
      KeptSnoc(log, outs, known, ToProtocol(hs[n]), os[n]);
      assert keep + [] == keep && log + [] == log && outs + [] == outs && Kept(log, outs, known) + [] == Kept(log, outs, known);
    }
  }

  /** The coordinator makes a hint durable: one append to the file, one protocol step. */
  method BufferDurably(file: Hints.HintFile, cluster: Cluster, sh: Shard, op: nat, n: u64, rec: Wal.WalRecord, ghost held: seq<Hints.Hint>)
    requires cluster.Valid() && file.Holds(held) && Image(sh, held) == Replication.HintsAt(cluster.s, cluster.self)
    requires op in cluster.s.pending && n in cluster.s.pending[op].unreachable && cluster.s.pending[op].coord == cluster.self
    requires cluster.s.pending[op].write == ShardRuns.WriteOf(rec)
    requires file.F().Fits(Hints.Hint(n, sh.collection, sh.index, rec))
    modifies file, cluster
    ensures cluster.Valid() && cluster.s == Replication.Do(cluster.All(), old(cluster.s), Replication.Buffer(op, n))
    ensures
      var now := held + [Hints.Hint(n, sh.collection, sh.index, rec)];
      file.Holds(now) && Image(sh, now) == Replication.HintsAt(cluster.s, cluster.self)
  {
    var h := Hints.Hint(n, sh.collection, sh.index, rec);
    file.BufferHint(h, held);
    ImageSnoc(sh, held, h);
    cluster.Take(Replication.Buffer(op, n));
  }

  /** A replay pass: read the file, push, rewrite the file. Its contents for the shard are
      again the protocol's log, and hints of other shards are kept or dropped alike. */
  method ReplayDurably(file: Hints.HintFile, cluster: Cluster, sh: Shard, known: set<u64>, outcomes: seq<Outcome>, ghost held: seq<Hints.Hint>)
    requires cluster.Valid() && file.Holds(held) && |outcomes| == |held|
    requires Image(sh, held) == Replication.HintsAt(cluster.s, cluster.self)
    modifies file, cluster
    ensures cluster.Valid() && file.Holds(KeptInFile(held, outcomes, known))
    ensures Image(sh, KeptInFile(held, outcomes, known)) == Replication.HintsAt(cluster.s, cluster.self)
    ensures |OutcomesFor(sh, held, outcomes)| == |Image(sh, held)|
    ensures HoldsNewest(old(cluster.s).stores, cluster.s.stores, Image(sh, held), OutcomesFor(sh, held, outcomes), known)
  {
    var hints := file.ReadAllHints(held);
    OneOutcomeEach(sh, hints, outcomes);
    KeptFromFile(hints, outcomes, known);
    ghost var positions;
    var replayed;
    replayed, positions := cluster.ReplayHints(known, OutcomesFor(sh, hints, outcomes));
    ImageOfKept(sh, hints, outcomes, known);
    var keep := KeptInFile(hints, outcomes, known);
    forall i | 0 <= i < |keep| ensures file.F().Fits(keep[i]) { assert keep[i] in held; }
    file.RewriteHints(keep);
  }
}
