/** A durable shard: an index and a version map behind a WAL and snapshots
    (crates/qv-storage/src/shard.rs). The index is any deterministic one: the state
    `I` stands for everything it serialises, graph and level generator included. */
module Shards {
  import opened Bytes
  import opened Clocks
  import opened FramedLog
  import opened Wal
  import Lww

  datatype IndexOps<!I> = IndexOps(
    dim: nat,
    empty: I,
    insert: (I, u64, Vector) -> I,
    delete: (I, u64) -> I,
    view: I -> map<u64, Vector>)

  /** What an index promises about its live points. */
  ghost predicate IndexLaws<I(!new)>(ops: IndexOps<I>) {
    && ops.view(ops.empty) == map[]
    && (forall i, id, v | |v| == ops.dim :: ops.view(ops.insert(i, id, v)) == ops.view(i)[id := v])
    && (forall i, id :: ops.view(ops.delete(i, id)) == ops.view(i) - {id})
  }

  datatype Version = Version(hlc: Hlc, tombstone: bool)
  datatype Memory<I> = Memory(index: I, versions: map<u64, Version>)
  datatype Snapshot<I> = Snapshot(walOffset: nat, image: Memory<I>)

  /** What a crash leaves behind: the WAL file as the next process reads it, of which
      the first `synced` bytes are on stable storage, and the snapshot file. */
  datatype Disk<I> = Disk(wal: seq<byte>, synced: nat, snapshot: Option<Snapshot<I>>)

  datatype Config<!I> = Config(ops: IndexOps<I>, crc: seq<byte> -> u32, batchMs: nat, thresholdBytes: nat) {
    function F(): Format<WalRecord> { WalFormat(crc) }
  }

  datatype State<I> = State(
    mem: Memory<I>,
    wal: seq<byte>,
    durable: nat,       // bytes of the WAL known to be on stable storage
    dirty: bool,
    lastSnapshot: nat,
    snapshot: Option<Snapshot<I>>)

  datatype Outcome = Applied | Stale | DimMismatch

  // ---- live writes ----------------------------------------------------------

  predicate IsStale<I>(m: Memory<I>, id: u64, hlc: Hlc) {
    id in m.versions && hlc.Le(m.versions[id].hlc)
  }

  /** Carry a record out on index and versions, with no version check. */
  function Install<I>(ops: IndexOps<I>, m: Memory<I>, r: WalRecord): Memory<I> {
    match r.op
    case Upsert => Memory(ops.insert(m.index, r.id, r.vector), m.versions[r.id := Version(r.hlc, false)])
    case Delete => Memory(ops.delete(m.index, r.id), m.versions[r.id := Version(r.hlc, true)])
  }

  function Flush<I>(s: State<I>): State<I> {
    if s.dirty then s.(durable := |s.wal|, dirty := false) else s
  }

  function Append<I>(cfg: Config<I>, s: State<I>, r: WalRecord): State<I> {
    var t := s.(wal := s.wal + cfg.F().Frame(r), dirty := true);
    if cfg.batchMs == 0 then Flush(t) else t
  }

  function SnapshotNow<I>(s: State<I>): State<I> {
    var t := Flush(s);
    t.(snapshot := Some(Snapshot(|t.wal|, t.mem)), lastSnapshot := |t.wal|)
  }

  function MaybeSnapshot<I>(cfg: Config<I>, s: State<I>): State<I> {
    if cfg.thresholdBytes == 0 then s
    else if |s.wal| - s.lastSnapshot >= cfg.thresholdBytes then SnapshotNow(s)
    else s
  }

  /** WAL first, then index and version, then perhaps a snapshot. */
  function Accept<I>(cfg: Config<I>, s: State<I>, r: WalRecord): State<I> {
    var t := Append(cfg, s, r);
    MaybeSnapshot(cfg, t.(mem := Install(cfg.ops, t.mem, r)))
  }

  /** `upsert_versioned` and `delete_versioned`. */
  function Submit<I>(cfg: Config<I>, s: State<I>, r: WalRecord): (State<I>, Outcome) {
    if r.op.Upsert? && |r.vector| != cfg.ops.dim then (s, DimMismatch)
    else if IsStale(s.mem, r.id, r.hlc) then (s, Stale)
    else (Accept(cfg, s, r), Applied)
  }

  // ---- recovery -------------------------------------------------------------

  /** `apply_record`: replay skips only strictly older records, and fails on a
      vector of the wrong dimension. */
  function ApplyRecord<I>(ops: IndexOps<I>, m: Memory<I>, r: WalRecord): Option<Memory<I>> {
    if r.id in m.versions && r.hlc.Lt(m.versions[r.id].hlc) then Some(m)
    else if r.op.Upsert? && |r.vector| != ops.dim then None
    else Some(Install(ops, m, r))
  }

  /** The first `i` recovered records, of which only those ending beyond the
      snapshot offset are applied. */
  function ReplayFirst<I>(cfg: Config<I>, m: Memory<I>, recs: seq<WalRecord>, offset: nat, i: nat): Option<Memory<I>>
    requires i <= |recs|
  {
    if i == 0 then Some(m)
    else
      var prev := ReplayFirst(cfg, m, recs, offset, i - 1);
      if prev.None? || |cfg.F().Frames(recs[..i])| <= offset then prev
      else ApplyRecord(cfg.ops, prev.value, recs[i - 1])
  }

  /** Recovery fsyncs only when it truncates; the reopened WAL is never dirty. */
  ghost function Open<I>(cfg: Config<I>, d: Disk<I>): Option<State<I>> {
    var base := if d.snapshot.Some? then d.snapshot.value else Snapshot(0, Memory(cfg.ops.empty, map[]));
    var recs := Parse(cfg.F(), d.wal);
    var mem := ReplayFirst(cfg, base.image, recs, base.walOffset, |recs|);
    var wal := cfg.F().Frames(recs);
    var durable := if |wal| < |d.wal| then |wal| else d.synced;
    if mem.None? then None else Some(State(mem.value, wal, durable, false, base.walOffset, d.snapshot))
  }

  // ---- the invariant --------------------------------------------------------

  /** The memory a log of accepted records leaves, from an empty shard. */
  function FoldLog<I>(ops: IndexOps<I>, log: seq<WalRecord>): Memory<I> {
    if log == [] then Memory(ops.empty, map[])
    else Install(ops, FoldLog(ops, log[..|log| - 1]), log[|log| - 1])
  }

  /** Each record won last-writer-wins when it was appended. */
  ghost predicate Accepted<I>(ops: IndexOps<I>, log: seq<WalRecord>) {
    forall i | 0 <= i < |log| :: Wins(ops, log, i)
  }

  ghost predicate Wins<I>(ops: IndexOps<I>, log: seq<WalRecord>, i: nat)
    requires i < |log|
  {
    && !IsStale(FoldLog(ops, log[..i]), log[i].id, log[i].hlc)
    && (log[i].op.Upsert? ==> |log[i].vector| == ops.dim)
  }

  /** The snapshot is the memory after the first `k` records. */
  ghost predicate SnapshotAt<I>(cfg: Config<I>, snap: Snapshot<I>, log: seq<WalRecord>, k: nat) {
    k <= |log| && snap.walOffset == |cfg.F().Frames(log[..k])| && snap.image == FoldLog(cfg.ops, log[..k])
  }

  ghost predicate SnapshotOk<I>(cfg: Config<I>, snap: Snapshot<I>, log: seq<WalRecord>) {
    exists k: nat :: SnapshotAt(cfg, snap, log, k)
  }

  /** Shard `s` is exactly the shard that accepted `log`. */
  ghost predicate Inv<I>(cfg: Config<I>, s: State<I>, log: seq<WalRecord>) {
    && cfg.F().AllFit(log) && Accepted(cfg.ops, log)
    && s.wal == cfg.F().Frames(log)
    && s.mem == FoldLog(cfg.ops, log)
    && s.durable <= |s.wal|
    && (s.snapshot.Some? ==> SnapshotOk(cfg, s.snapshot.value, log) && s.lastSnapshot == s.snapshot.value.walOffset)
    && (s.snapshot.None? ==> s.lastSnapshot == 0)
  }

  /** The WAL bytes a snapshot stands for are on stable storage. */
  predicate SnapshotSynced<I>(s: State<I>) { s.snapshot.Some? ==> s.snapshot.value.walOffset <= s.durable }

  function Fresh<I>(cfg: Config<I>): State<I> {
    State(Memory(cfg.ops.empty, map[]), [], 0, false, 0, None)
  }

  lemma AcceptedPrefix<I>(ops: IndexOps<I>, log: seq<WalRecord>, k: nat)
    requires Accepted(ops, log) && k <= |log|
    ensures Accepted(ops, log[..k])
  {
    forall i | 0 <= i < k ensures Wins(ops, log[..k], i) {
      assert Wins(ops, log, i);
      assert log[..k][..i] == log[..i];
    }
  }

  lemma FlushKeepsInv<I>(cfg: Config<I>, s: State<I>, log: seq<WalRecord>)
    requires Inv(cfg, s, log)
    ensures Inv(cfg, Flush(s), log)
    ensures Flush(s).durable == |s.wal| <==> s.dirty || s.durable == |s.wal|
  {}

  /** A snapshot is exact whenever it is taken. It stands for synced bytes exactly when
      there was something to flush or nothing left unsynced. */
  lemma SnapshotKeepsInv<I>(cfg: Config<I>, s: State<I>, log: seq<WalRecord>)
    requires Inv(cfg, s, log)
    ensures Inv(cfg, SnapshotNow(s), log)
    ensures SnapshotSynced(SnapshotNow(s)) <==> s.dirty || s.durable == |s.wal|
  {
    assert log[..|log|] == log;
    assert SnapshotAt(cfg, SnapshotNow(s).snapshot.value, log, |log|);
  }

  lemma AcceptedExtends<I>(ops: IndexOps<I>, log: seq<WalRecord>, r: WalRecord)
    requires Accepted(ops, log)
    requires !IsStale(FoldLog(ops, log), r.id, r.hlc) && (r.op.Upsert? ==> |r.vector| == ops.dim)
    ensures Accepted(ops, log + [r]) && FoldLog(ops, log + [r]) == Install(ops, FoldLog(ops, log), r)
  {
    var log' := log + [r];
    assert log'[..|log|] == log;
    forall i | 0 <= i < |log'| ensures Wins(ops, log', i) {
      assert log'[..i] == log[..i];
      assert i < |log| ==> Wins(ops, log, i);
    }
  }

  lemma AppendKeepsSnapshot<I>(cfg: Config<I>, snap: Snapshot<I>, log: seq<WalRecord>, r: WalRecord)
    requires SnapshotOk(cfg, snap, log)
    ensures SnapshotOk(cfg, snap, log + [r])
  {
    var k: nat :| SnapshotAt(cfg, snap, log, k);
    assert (log + [r])[..k] == log[..k];
    assert SnapshotAt(cfg, snap, log + [r], k);
  }

  lemma AcceptKeepsInv<I>(cfg: Config<I>, s: State<I>, log: seq<WalRecord>, r: WalRecord)
    requires Inv(cfg, s, log) && cfg.F().Fits(r)
    requires !IsStale(s.mem, r.id, r.hlc) && (r.op.Upsert? ==> |r.vector| == cfg.ops.dim)
    ensures Inv(cfg, Accept(cfg, s, r), log + [r])
    ensures SnapshotSynced(s) ==> SnapshotSynced(Accept(cfg, s, r))
  {
    AcceptedExtends(cfg.ops, log, r);
    if s.snapshot.Some? { AppendKeepsSnapshot(cfg, s.snapshot.value, log, r); }
    assert (log + [r])[..|log|] == log;
    var a := Append(cfg, s, r);
    var t := a.(mem := Install(cfg.ops, a.mem, r));
    assert Inv(cfg, t, log + [r]);
    SnapshotKeepsInv(cfg, t, log + [r]);
  }

  /** Replaying a record that won when it was logged does what the live path did. */
  lemma ReplayStep<I>(ops: IndexOps<I>, log: seq<WalRecord>, i: nat)
    requires i < |log| && Wins(ops, log, i)
    ensures ApplyRecord(ops, FoldLog(ops, log[..i]), log[i]) == Some(FoldLog(ops, log[..i + 1]))
  {
    assert log[..i + 1][..i] == log[..i];
  }

  /** Records the snapshot covers are skipped. */
  lemma {:induction false} ReplaySkips<I>(cfg: Config<I>, log: seq<WalRecord>, j: nat, i: nat, image: Memory<I>)
    requires i <= j <= |log|
    ensures ReplayFirst(cfg, image, log, |cfg.F().Frames(log[..j])|, i) == Some(image)
    decreases i
  {
    if i > 0 {
      ReplaySkips(cfg, log, j, i - 1, image);
      FramesMonotone(cfg.F(), log, i, j);
    }
  }

  lemma ReplayOneMore<I>(cfg: Config<I>, m: Memory<I>, recs: seq<WalRecord>, offset: nat, i: nat, before: Memory<I>, after: Memory<I>)
    requires i < |recs| && ReplayFirst(cfg, m, recs, offset, i) == Some(before)
    requires |cfg.F().Frames(recs[..i + 1])| > offset && ApplyRecord(cfg.ops, before, recs[i]) == Some(after)
    ensures ReplayFirst(cfg, m, recs, offset, i + 1) == Some(after)
  {}

  /** Replaying beyond a snapshot of the first `j` records rebuilds the memory the
      live path had after `i` records. */
  lemma {:induction false} ReplayRebuilds<I>(cfg: Config<I>, log: seq<WalRecord>, j: nat, i: nat, image: Memory<I>)
    requires Accepted(cfg.ops, log) && j <= i <= |log| && image == FoldLog(cfg.ops, log[..j])
    ensures ReplayFirst(cfg, image, log, |cfg.F().Frames(log[..j])|, i) == Some(FoldLog(cfg.ops, log[..i]))
    decreases i
  {
    if i == j {
      ReplaySkips(cfg, log, j, j, image);
    } else {
      var p := i - 1;
      var before, after := FoldLog(cfg.ops, log[..p]), FoldLog(cfg.ops, log[..i]);
      var offset := |cfg.F().Frames(log[..j])|;
      ReplayRebuilds(cfg, log, j, p, image);
      assert ReplayFirst(cfg, image, log, offset, p) == Some(before);
      FramesMonotone(cfg.F(), log, j, i);
      ReplayStep(cfg.ops, log, p);
      assert ApplyRecord(cfg.ops, before, log[p]) == Some(after);
      ReplayOneMore(cfg, image, log, offset, p, before, after);
    }
  }

  /** The parse of a crashed WAL is the surviving whole records. */
  lemma ParseAfterCrash<I>(cfg: Config<I>, log: seq<WalRecord>, n: nat)
    requires cfg.F().AllFit(log) && n <= |cfg.F().Frames(log)|
    ensures Parse(cfg.F(), cfg.F().Frames(log)[..n]) == log[..WholeRecords(cfg.F(), log, n)]
  {
    WalBodiesInjective(cfg.crc);
    PrefixParse(cfg.F(), log, n);
    var buf := cfg.F().Frames(log)[..n];
    ParseUnique(cfg.F(), buf, Parse(cfg.F(), buf), log[..WholeRecords(cfg.F(), log, n)]);
  }

  /** Opening on a WAL that parses to `log`, with a snapshot of some prefix of it. */
  lemma OpenRebuilds<I>(cfg: Config<I>, d: Disk<I>, log: seq<WalRecord>)
    requires Parse(cfg.F(), d.wal) == log && Accepted(cfg.ops, log) && d.synced <= |d.wal|
    requires d.snapshot.Some? ==> SnapshotOk(cfg, d.snapshot.value, log)
    ensures Open(cfg, d).Some? && Inv(cfg, Open(cfg, d).value, log)
  {
    assert log[..|log|] == log && log[..0] == [];
    if d.snapshot.Some? {
      var snap := d.snapshot.value;
      var j: nat :| SnapshotAt(cfg, snap, log, j);
      ReplayRebuilds(cfg, log, j, |log|, snap.image);
    } else {
      ReplayRebuilds(cfg, log, 0, |log|, Memory(cfg.ops.empty, map[]));
    }
  }

  lemma SnapshotSurvives<I>(cfg: Config<I>, snap: Snapshot<I>, log: seq<WalRecord>, n: nat)
    requires SnapshotOk(cfg, snap, log) && snap.walOffset <= n
    ensures SnapshotOk(cfg, snap, log[..WholeRecords(cfg.F(), log, n)])
    ensures snap.walOffset <= |cfg.F().Frames(log[..WholeRecords(cfg.F(), log, n)])|
  {
    var f, k := cfg.F(), WholeRecords(cfg.F(), log, n);
    var j: nat :| SnapshotAt(cfg, snap, log, j);
    WholeRecordsMost(f, log, n, j);
    FramesMonotone(f, log, j, k);
    assert log[..k][..j] == log[..j];
    assert SnapshotAt(cfg, snap, log[..k], j);
  }

  /** Crash recovery. However many bytes survive, opening the shard gives exactly the
      shard that accepted the surviving whole records (same index state, same versions,
      snapshot or not) provided the WAL still reaches the snapshot's offset. */
  lemma CrashRecovers<I>(cfg: Config<I>, s: State<I>, log: seq<WalRecord>, n: nat, synced: nat)
    requires Inv(cfg, s, log) && synced <= n <= |s.wal|
    requires s.snapshot.Some? ==> s.snapshot.value.walOffset <= n
    ensures
      var r := Open(cfg, Disk(s.wal[..n], synced, s.snapshot));
      && r.Some? && Inv(cfg, r.value, log[..WholeRecords(cfg.F(), log, n)])
      && (s.snapshot.Some? && s.snapshot.value.walOffset <= synced ==> SnapshotSynced(r.value))
  {
    var k := WholeRecords(cfg.F(), log, n);
    ParseAfterCrash(cfg, log, n);
    AcceptedPrefix(cfg.ops, log, k);
    if s.snapshot.Some? { SnapshotSurvives(cfg, s.snapshot.value, log, n); }
    OpenRebuilds(cfg, Disk(s.wal[..n], synced, s.snapshot), log[..k]);
  }

  /** An accepted record leaves a version at least as new for good. */
  lemma {:induction false} AcceptedVersionStays<I>(ops: IndexOps<I>, log: seq<WalRecord>, k: nat, j: nat)
    requires Accepted(ops, log) && k < j <= |log|
    ensures var vs := FoldLog(ops, log[..j]).versions; log[k].id in vs && log[k].hlc.Le(vs[log[k].id].hlc)
    decreases j
  {
    var p: nat := j - 1;
    assert log[..j][..p] == log[..p];
    assert Wins(ops, log, p);
    if k < p { AcceptedVersionStays(ops, log, k, p); }
  }

  lemma AcceptedFoldsDiffer<I>(ops: IndexOps<I>, log: seq<WalRecord>, k: nat, j: nat)
    requires Accepted(ops, log) && k < j <= |log|
    ensures FoldLog(ops, log[..k]) != FoldLog(ops, log[..j])
  {
    AcceptedVersionStays(ops, log, k, j);
    assert Wins(ops, log, k);
  }

  /** When the WAL fell short of the snapshot, every record is skipped. */
  lemma {:induction false} ReplaySkipsAll<I>(cfg: Config<I>, m: Memory<I>, recs: seq<WalRecord>, offset: nat, i: nat)
    requires i <= |recs| && |cfg.F().Frames(recs)| <= offset
    ensures ReplayFirst(cfg, m, recs, offset, i) == Some(m)
    decreases i
  {
    if i > 0 {
      var p: nat := i - 1;
      ReplaySkipsAll(cfg, m, recs, offset, p);
      FramesMonotone(cfg.F(), recs, i, |recs|);
      assert recs[..|recs|] == recs;
    }
  }

  /** A snapshot beyond the surviving WAL is loaded as it is. */
  lemma ShortWalLoadsSnapshot<I>(cfg: Config<I>, s: State<I>, log: seq<WalRecord>, n: nat, synced: nat)
    requires Inv(cfg, s, log) && n <= |s.wal| && s.snapshot.Some? && n < s.snapshot.value.walOffset
    ensures
      var r := Open(cfg, Disk(s.wal[..n], synced, s.snapshot));
      && r.Some? && r.value.mem == s.snapshot.value.image
      && r.value.mem != FoldLog(cfg.ops, log[..WholeRecords(cfg.F(), log, n)])
  {
    var k, snap := WholeRecords(cfg.F(), log, n), s.snapshot.value;
    ParseAfterCrash(cfg, log, n);
    ReplaySkipsAll(cfg, snap.image, log[..k], snap.walOffset, k);
    var j: nat :| SnapshotAt(cfg, snap, log, j);
    WholeRecordsMost(cfg.F(), log, n, j);
    AcceptedFoldsDiffer(cfg.ops, log, k, j);
  }

  /** The exact condition: the reopened memory is that of the surviving records if and
      only if the WAL still reaches the snapshot's offset. */
  lemma CrashRecoversIff<I>(cfg: Config<I>, s: State<I>, log: seq<WalRecord>, n: nat, synced: nat)
    requires Inv(cfg, s, log) && synced <= n <= |s.wal|
    ensures
      var r := Open(cfg, Disk(s.wal[..n], synced, s.snapshot));
      && r.Some?
      && (r.value.mem == FoldLog(cfg.ops, log[..WholeRecords(cfg.F(), log, n)]) <==>
          (s.snapshot.Some? ==> s.snapshot.value.walOffset <= n))
  {
    if s.snapshot.Some? && n < s.snapshot.value.walOffset {
      ShortWalLoadsSnapshot(cfg, s, log, n, synced);
    } else {
      CrashRecovers(cfg, s, log, n, synced);
    }
  }

  /** Every record flushed before the crash survives it. */
  lemma FlushedRecordsSurvive<I>(cfg: Config<I>, s: State<I>, log: seq<WalRecord>, n: nat, j: nat)
    requires Inv(cfg, s, log) && s.durable <= n <= |s.wal|
    requires j <= |log| && |cfg.F().Frames(log[..j])| <= s.durable
    ensures log[..j] <= log[..WholeRecords(cfg.F(), log, n)]
  {
    WholeRecordsMost(cfg.F(), log, n, j);
  }
}
