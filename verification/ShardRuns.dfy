/** Whole runs of a durable shard, with crashes anywhere, and its contents seen as
    a last-writer-wins replica (crates/qv-storage/src/shard.rs). */
module ShardRuns {
  import opened Bytes
  import opened Clocks
  import opened FramedLog
  import opened Wal
  import opened Shards
  import Lww

  /** A crash interrupts the shard, perhaps in the middle of appending one more
      record, leaves `n` bytes of WAL and is followed by a reopen. After a power loss
      what is left is on stable storage; after a process kill the part never fsynced
      may still sit in the page cache only. */
  datatype Event = Submitted(r: WalRecord) | Flushed | Snapshotted | Crashed(power: bool, inFlight: Option<WalRecord>, n: nat)

  /** The shard with an accepted record written but not yet flushed. */
  function Staged<I>(cfg: Config<I>, s: State<I>, inFlight: Option<WalRecord>): State<I> {
    match inFlight
    case None => s
    case Some(r) => s.(wal := s.wal + cfg.F().Frame(r), dirty := true, mem := Install(cfg.ops, s.mem, r))
  }

  function WithInFlight(log: seq<WalRecord>, inFlight: Option<WalRecord>): seq<WalRecord> {
    if inFlight.Some? then log + [inFlight.value] else log
  }

  ghost predicate Enabled<I>(cfg: Config<I>, s: State<I>, e: Event) {
    match e
    case Submitted(r) => cfg.F().Fits(r)
    case Crashed(_, fl, n) =>
      && (fl.Some? ==> cfg.F().Fits(fl.value) && Submit(cfg, s, fl.value).1 == Applied)
      && s.durable <= n <= |Staged(cfg, s, fl).wal|
    case _ => true
  }

  /** What is left of a staged shard after a crash. */
  function Remains<I>(t: State<I>, power: bool, n: nat): Disk<I>
    requires n <= |t.wal|
  {
    Disk(t.wal[..n], if power then n else t.durable, t.snapshot)
  }

  ghost function Step<I>(cfg: Config<I>, s: State<I>, e: Event): Option<State<I>>
    requires Enabled(cfg, s, e)
  {
    match e
    case Submitted(r) => Some(Submit(cfg, s, r).0)
    case Flushed => Some(Flush(s))
    case Snapshotted => Some(SnapshotNow(s))
    case Crashed(power, fl, n) => Reopened(cfg, s, power, fl, n)
  }

  ghost function Reopened<I>(cfg: Config<I>, s: State<I>, power: bool, fl: Option<WalRecord>, n: nat): Option<State<I>>
    requires n <= |Staged(cfg, s, fl).wal|
  {
    Open(cfg, Remains(Staged(cfg, s, fl), power, n))
  }

  ghost function Survivors<I>(cfg: Config<I>, log: seq<WalRecord>, fl: Option<WalRecord>, n: nat): seq<WalRecord> {
    var all := WithInFlight(log, fl);
    all[..WholeRecords(cfg.F(), all, n)]
  }

  /** The accepted records that survive an event. */
  ghost function LogStep<I>(cfg: Config<I>, s: State<I>, log: seq<WalRecord>, e: Event): seq<WalRecord> {
    match e
    case Submitted(r) => if Submit(cfg, s, r).1 == Applied then log + [r] else log
    case Crashed(_, fl, n) => Survivors(cfg, log, fl, n)
    case _ => log
  }

  lemma StagedInv<I>(cfg: Config<I>, s: State<I>, log: seq<WalRecord>, fl: Option<WalRecord>)
    requires Inv(cfg, s, log) && (fl.Some? ==> cfg.F().Fits(fl.value) && Submit(cfg, s, fl.value).1 == Applied)
    ensures Inv(cfg, Staged(cfg, s, fl), WithInFlight(log, fl))
  {
    if fl.Some? {
      AcceptedExtends(cfg.ops, log, fl.value);
      if s.snapshot.Some? { AppendKeepsSnapshot(cfg, s.snapshot.value, log, fl.value); }
      assert (log + [fl.value])[..|log|] == log;
    }
  }

  /** A snapshot is requested with bytes unsynced although the WAL counts as clean. This
      happens only between a reopen that did not truncate and the next append. */
  predicate Blind<I>(s: State<I>, e: Event) { e.Snapshotted? && !s.dirty && s.durable < |s.wal| }

  /** Every event of a shard's life but a blind snapshot keeps the invariant. */
  lemma StepKeepsInv<I>(cfg: Config<I>, s: State<I>, log: seq<WalRecord>, e: Event)
    requires Inv(cfg, s, log) && SnapshotSynced(s) && Enabled(cfg, s, e) && !Blind(s, e)
    ensures Step(cfg, s, e).Some?
    ensures Inv(cfg, Step(cfg, s, e).value, LogStep(cfg, s, log, e)) && SnapshotSynced(Step(cfg, s, e).value)
  {
    match e
    case Submitted(r) => if Submit(cfg, s, r).1 == Applied { AcceptKeepsInv(cfg, s, log, r); }
    case Flushed => FlushKeepsInv(cfg, s, log);
    case Snapshotted => SnapshotKeepsInv(cfg, s, log);
    case Crashed(power, fl, n) => CrashKeepsInv(cfg, s, log, power, fl, n);
  }

  lemma CrashKeepsInv<I>(cfg: Config<I>, s: State<I>, log: seq<WalRecord>, power: bool, fl: Option<WalRecord>, n: nat)
    requires Inv(cfg, s, log) && SnapshotSynced(s) && Enabled(cfg, s, Crashed(power, fl, n))
    ensures
      var r := Reopened(cfg, s, power, fl, n);
      r.Some? && Inv(cfg, r.value, Survivors(cfg, log, fl, n)) && SnapshotSynced(r.value)
  {
    StagedInv(cfg, s, log, fl);
    CrashFrom(cfg, Staged(cfg, s, fl), WithInFlight(log, fl), power, n);
  }

  lemma CrashFrom<I>(cfg: Config<I>, t: State<I>, all: seq<WalRecord>, power: bool, n: nat)
    requires Inv(cfg, t, all) && SnapshotSynced(t) && t.durable <= n <= |t.wal|
    ensures
      var r := Open(cfg, Remains(t, power, n));
      r.Some? && Inv(cfg, r.value, all[..WholeRecords(cfg.F(), all, n)]) && SnapshotSynced(r.value)
  {
    CrashRecovers(cfg, t, all, n, if power then n else t.durable);
  }

  /** A run from a fresh shard: `states[i]` before `events[i]`, and the accepted
      records that have survived up to there. */
  datatype Run<I> = Run(states: seq<State<I>>, logs: seq<seq<WalRecord>>, events: seq<Event>)

  ghost predicate IsStep<I>(cfg: Config<I>, run: Run<I>, i: nat)
    requires i < |run.events| && |run.states| == |run.logs| == |run.events| + 1
  {
    Goes(cfg, run.states[i], run.logs[i], run.events[i], run.states[i + 1], run.logs[i + 1])
  }

  ghost predicate Goes<I>(cfg: Config<I>, s: State<I>, log: seq<WalRecord>, e: Event, t: State<I>, log': seq<WalRecord>) {
    Enabled(cfg, s, e) && Step(cfg, s, e) == Some(t) && log' == LogStep(cfg, s, log, e)
  }

  ghost predicate IsRun<I>(cfg: Config<I>, run: Run<I>) {
    && |run.states| == |run.logs| == |run.events| + 1
    && run.states[0] == Fresh(cfg) && run.logs[0] == []
    && forall i: nat | i < |run.events| :: IsStep(cfg, run, i)
  }

  ghost predicate BlindAt<I>(run: Run<I>, i: nat)
    requires i < |run.events| < |run.states|
  {
    Blind(run.states[i], run.events[i])
  }

  /** No snapshot is requested right after a reopen that left bytes unsynced. */
  ghost predicate NeverBlind<I>(run: Run<I>) {
    |run.events| < |run.states| && forall i: nat | i < |run.events| :: !BlindAt(run, i)
  }

  /** At every point of every such run, with any crashes, the shard is exactly the one
      that accepted the surviving records: the snapshot and tail path, the full replay
      path and the live path agree on index state and versions. */
  lemma {:induction false} RunMatchesSurvivingLog<I>(cfg: Config<I>, run: Run<I>, i: nat)
    requires IsRun(cfg, run) && NeverBlind(run) && i < |run.states|
    ensures Inv(cfg, run.states[i], run.logs[i]) && SnapshotSynced(run.states[i])
  {
    if i > 0 {
      var p: nat := i - 1;
      RunMatchesSurvivingLog(cfg, run, p);
      RunStep(cfg, run, p);
    }
  }

  lemma RunStep<I>(cfg: Config<I>, run: Run<I>, p: nat)
    requires IsRun(cfg, run) && NeverBlind(run) && p < |run.events|
    requires Inv(cfg, run.states[p], run.logs[p]) && SnapshotSynced(run.states[p])
    ensures Inv(cfg, run.states[p + 1], run.logs[p + 1]) && SnapshotSynced(run.states[p + 1])
  {
    assert IsStep(cfg, run, p) && !BlindAt(run, p);
    StepKeepsInv(cfg, run.states[p], run.logs[p], run.events[p]);
  }

  /** `prefix` is part of the log and on stable storage. */
  ghost predicate Safe<I>(cfg: Config<I>, s: State<I>, log: seq<WalRecord>, prefix: seq<WalRecord>) {
    prefix <= log && |cfg.F().Frames(prefix)| <= s.durable
  }

  lemma CrashKeepsPrefix<I>(cfg: Config<I>, s: State<I>, log: seq<WalRecord>, n: nat, prefix: seq<WalRecord>)
    requires Inv(cfg, s, log) && s.durable <= n <= |s.wal| && Safe(cfg, s, log, prefix)
    ensures
      var kept := log[..WholeRecords(cfg.F(), log, n)];
      prefix <= kept && |cfg.F().Frames(prefix)| <= |cfg.F().Frames(kept)|
  {
    assert log[..|prefix|] == prefix;
    FlushedRecordsSurvive(cfg, s, log, n, |prefix|);
    FramesMonotone(cfg.F(), log, |prefix|, WholeRecords(cfg.F(), log, n));
  }

  lemma CrashKeepsSafe<I>(cfg: Config<I>, s: State<I>, log: seq<WalRecord>, power: bool, fl: Option<WalRecord>, n: nat, prefix: seq<WalRecord>)
    requires Inv(cfg, s, log) && SnapshotSynced(s) && Enabled(cfg, s, Crashed(power, fl, n)) && Safe(cfg, s, log, prefix)
    ensures
      var r := Reopened(cfg, s, power, fl, n);
      r.Some? && Safe(cfg, r.value, Survivors(cfg, log, fl, n), prefix)
  {
    var t, all := Staged(cfg, s, fl), WithInFlight(log, fl);
    StagedInv(cfg, s, log, fl);
    assert Safe(cfg, t, all, prefix);
    CrashKeepsPrefix(cfg, t, all, n, prefix);
    CrashKeepsInv(cfg, s, log, power, fl, n);
    ReopenedDurable(cfg, Remains(t, power, n));
  }

  /** Reopening never reports less as durable than was synced or than it kept. */
  lemma ReopenedDurable<I>(cfg: Config<I>, d: Disk<I>)
    requires Open(cfg, d).Some?
    ensures var r := Open(cfg, d).value; r.durable >= (if d.synced < |r.wal| then d.synced else |r.wal|)
  {}

  lemma StepKeepsSafe<I>(cfg: Config<I>, s: State<I>, log: seq<WalRecord>, e: Event, prefix: seq<WalRecord>)
    requires Inv(cfg, s, log) && SnapshotSynced(s) && Enabled(cfg, s, e) && !Blind(s, e) && Safe(cfg, s, log, prefix)
    ensures Step(cfg, s, e).Some? && Safe(cfg, Step(cfg, s, e).value, LogStep(cfg, s, log, e), prefix)
  {
    match e
    case Submitted(r) => SubmitKeepsSafe(cfg, s, log, r, prefix);
    case Crashed(power, fl, n) => CrashKeepsSafe(cfg, s, log, power, fl, n, prefix);
    case _ =>
  }

  lemma SubmitKeepsSafe<I>(cfg: Config<I>, s: State<I>, log: seq<WalRecord>, r: WalRecord, prefix: seq<WalRecord>)
    requires Safe(cfg, s, log, prefix) && s.durable <= |s.wal|
    ensures Safe(cfg, Submit(cfg, s, r).0, LogStep(cfg, s, log, Submitted(r)), prefix)
  {}

  lemma RunStepSafe<I>(cfg: Config<I>, run: Run<I>, p: nat, prefix: seq<WalRecord>)
    requires IsRun(cfg, run) && NeverBlind(run) && p < |run.events| && Safe(cfg, run.states[p], run.logs[p], prefix)
    ensures Safe(cfg, run.states[p + 1], run.logs[p + 1], prefix)
  {
    RunMatchesSurvivingLog(cfg, run, p);
    assert IsStep(cfg, run, p) && !BlindAt(run, p);
    StepKeepsSafe(cfg, run.states[p], run.logs[p], run.events[p], prefix);
  }

  /** A record once flushed is never lost again, through any number of later
      writes, snapshots and crashes. */
  lemma {:induction false} FlushedNeverLost<I>(cfg: Config<I>, run: Run<I>, i: nat, j: nat, prefix: seq<WalRecord>)
    requires IsRun(cfg, run) && NeverBlind(run) && i <= j < |run.states|
    requires Safe(cfg, run.states[i], run.logs[i], prefix)
    ensures Safe(cfg, run.states[j], run.logs[j], prefix)
    decreases j
  {
    if i < j {
      var p: nat := j - 1;
      FlushedNeverLost(cfg, run, i, p, prefix);
      RunStepSafe(cfg, run, p, prefix);
    }
  }

  /** Without batching a write that was applied is never lost: nor is any accepted before it. */
  lemma UnbatchedNeverLosesAcks<I>(cfg: Config<I>, run: Run<I>, i: nat, j: nat)
    requires IsRun(cfg, run) && NeverBlind(run) && i < j < |run.states| && cfg.batchMs == 0
    requires run.events[i].Submitted? && Submit(cfg, run.states[i], run.events[i].r).1 == Applied
    ensures run.logs[i] + [run.events[i].r] <= run.logs[j]
  {
    var k: nat := i + 1;
    RunMatchesSurvivingLog(cfg, run, k);
    assert IsStep(cfg, run, i);
    FlushedNeverLost(cfg, run, k, j, run.logs[k]);
  }

  // ---- blind snapshots ------------------------------------------------------

  ghost predicate RecoversAt<I>(cfg: Config<I>, s: State<I>, log: seq<WalRecord>, n: nat)
    requires n <= |s.wal|
  {
    var r := Open(cfg, Remains(s, true, n));
    r.Some? && r.value.mem == FoldLog(cfg.ops, log[..WholeRecords(cfg.F(), log, n)])
  }

  /** Exactly when a snapshot is safe against a following power loss: something was
      there to flush, or nothing was left unsynced. */
  lemma SnapshotSafeIff<I>(cfg: Config<I>, s: State<I>, log: seq<WalRecord>)
    requires Inv(cfg, s, log)
    ensures SnapshotNow(s).wal == s.wal
    ensures (forall n | SnapshotNow(s).durable <= n <= |s.wal| :: RecoversAt(cfg, SnapshotNow(s), log, n)) <==> !Blind(s, Snapshotted)
  {
    var t := SnapshotNow(s);
    SnapshotKeepsInv(cfg, s, log);
    forall n | t.durable <= n <= |s.wal| ensures RecoversAt(cfg, t, log, n) <==> t.snapshot.value.walOffset <= n {
      CrashRecoversIff(cfg, t, log, n, n);
    }
    if Blind(s, Snapshotted) { assert !RecoversAt(cfg, t, log, t.durable); }
  }

  ghost predicate EndsIn<I>(run: Run<I>, s: State<I>, log: seq<WalRecord>) {
    |run.events| < |run.states| && |run.events| < |run.logs| && run.states[|run.events|] == s && run.logs[|run.events|] == log
  }

  /** Some run leads to this shard and these surviving records. */
  ghost predicate Reached<I(!new)>(cfg: Config<I>, s: State<I>, log: seq<WalRecord>) {
    exists run :: IsRun(cfg, run) && EndsIn(run, s, log)
  }

  lemma ReachedNext<I(!new)>(cfg: Config<I>, s: State<I>, log: seq<WalRecord>, e: Event, t: State<I>, log': seq<WalRecord>)
    requires Reached(cfg, s, log) && Goes(cfg, s, log, e, t, log')
    ensures Reached(cfg, t, log')
  {
    var run :| IsRun(cfg, run) && EndsIn(run, s, log);
    var more := Run(run.states + [t], run.logs + [log'], run.events + [e]);
    forall i: nat | i < |more.events| ensures IsStep(cfg, more, i) {
      if i < |run.events| { SameStep(cfg, run, more, i); } else { LastStep(cfg, s, log, e, t, log', more, i); }
    }
    assert EndsIn(more, t, log');
  }

  lemma LastStep<I>(cfg: Config<I>, s: State<I>, log: seq<WalRecord>, e: Event, t: State<I>, log': seq<WalRecord>, more: Run<I>, i: nat)
    requires Goes(cfg, s, log, e, t, log') && |more.states| == |more.logs| == |more.events| + 1 && i + 1 == |more.events|
    requires more.states[i] == s && more.states[i + 1] == t && more.logs[i] == log && more.logs[i + 1] == log' && more.events[i] == e
    ensures IsStep(cfg, more, i)
  {}

  lemma SameStep<I>(cfg: Config<I>, run: Run<I>, more: Run<I>, i: nat)
    requires IsRun(cfg, run) && run.states <= more.states && run.logs <= more.logs && run.events <= more.events && i < |run.events|
    requires |more.states| == |more.logs| == |more.events| + 1
    ensures IsStep(cfg, more, i)
  {
    assert IsStep(cfg, run, i);
    assert more.states[i] == run.states[i] && more.states[i + 1] == run.states[i + 1];
    assert more.logs[i] == run.logs[i] && more.logs[i + 1] == run.logs[i + 1] && more.events[i] == run.events[i];
  }

  /** A batched write that triggers no snapshot. */
  lemma WriteGoes<I>(cfg: Config<I>, s: State<I>, r: WalRecord)
    requires cfg.batchMs > 0 && cfg.thresholdBytes == 0 && cfg.F().Fits(r) && r.id !in s.mem.versions && s.wal == []
    requires r.op.Upsert? ==> |r.vector| == cfg.ops.dim
    ensures Goes(cfg, s, [], Submitted(r), s.(mem := Install(cfg.ops, s.mem, r), wal := cfg.F().Frame(r), dirty := true), [r])
  {
    assert [] + cfg.F().Frame(r) == cfg.F().Frame(r) && [] + [r] == [r];
  }

  function First<I>(cfg: Config<I>, a: WalRecord): Memory<I> { Install(cfg.ops, Memory(cfg.ops.empty, map[]), a) }

  /** `a` written in batch mode and never synced, the process killed and restarted. */
  function Restarted<I>(cfg: Config<I>, a: WalRecord): State<I> { State(First(cfg, a), cfg.F().Frame(a), 0, false, 0, None) }

  /** Then a snapshot, and a power loss that takes the whole WAL. */
  function Stranded<I>(cfg: Config<I>, a: WalRecord): State<I> {
    var n := |cfg.F().Frame(a)|;
    State(First(cfg, a), [], 0, false, n, Some(Snapshot(n, First(cfg, a))))
  }

  lemma RestartedReached<I(!new)>(cfg: Config<I>, a: WalRecord)
    requires cfg.batchMs > 0 && cfg.thresholdBytes == 0 && cfg.F().Fits(a) && (a.op.Upsert? ==> |a.vector| == cfg.ops.dim)
    ensures Reached(cfg, Restarted(cfg, a), [a]) && Blind(Restarted(cfg, a), Snapshotted)
  {
    var s0, s1 := Fresh(cfg), Restarted(cfg, a).(dirty := true);
    var run := Run([s0], [[]], []);
    assert IsRun(cfg, run) && EndsIn(run, s0, []);
    WriteGoes(cfg, s0, a);
    ReachedNext(cfg, s0, [], Submitted(a), s1, [a]);
    ReopenOne(cfg, s1, a, s0.mem);
    ReachedNext(cfg, s1, [a], Crashed(false, None, |s1.wal|), Restarted(cfg, a), [a]);
  }

  lemma StrandedReached<I(!new)>(cfg: Config<I>, a: WalRecord)
    requires Reached(cfg, Restarted(cfg, a), [a]) && cfg.F().Fits(a)
    ensures Reached(cfg, Stranded(cfg, a), [])
  {
    var s3 := SnapshotNow(Restarted(cfg, a));
    ReachedNext(cfg, Restarted(cfg, a), [a], Snapshotted, s3, [a]);
    ReopenNone(cfg, s3, a);
    ReachedNext(cfg, s3, [a], Crashed(true, None, 0), Stranded(cfg, a), []);
  }

  /** How a flushed record gets lost, for any two records of which the second is no
      longer than the first: after that snapshot and power loss the second is written
      where the snapshot claims to have read already, flushed, and skipped at the next
      open, so a reachable shard holds it durably and its successor does not. */
  lemma BlindSnapshotLosesFlushed<I(!new)>(cfg: Config<I>, a: WalRecord, b: WalRecord) returns (s: State<I>, t: State<I>)
    requires cfg.batchMs > 0 && cfg.thresholdBytes == 0 && cfg.F().Fits(a) && cfg.F().Fits(b) && a.id != b.id
    requires (a.op.Upsert? ==> |a.vector| == cfg.ops.dim) && (b.op.Upsert? ==> |b.vector| == cfg.ops.dim)
    requires FramedLen(b) <= FramedLen(a)
    ensures Reached(cfg, s, [b]) && Safe(cfg, s, [b], [b]) && b.id in s.mem.versions
    ensures Goes(cfg, s, [b], Crashed(false, None, |s.wal|), t, [b]) && b.id !in t.mem.versions
  {
    RestartedReached(cfg, a);
    StrandedReached(cfg, a);
    var s4 := Stranded(cfg, a);
    var s5 := s4.(mem := Install(cfg.ops, s4.mem, b), wal := cfg.F().Frame(b), dirty := true);
    WriteGoes(cfg, s4, b);
    ReachedNext(cfg, s4, [], Submitted(b), s5, [b]);
    s, t := Flush(s5), Flush(s5).(mem := s4.mem);
    ReachedNext(cfg, s5, [b], Flushed, s, [b]);
    ReopenOne(cfg, s, b, s4.mem);
    OneRecordLog(cfg, b);
  }

  /** A kill that leaves one whole record. */
  lemma ReopenOne<I>(cfg: Config<I>, s: State<I>, r: WalRecord, base: Memory<I>)
    requires cfg.F().Fits(r) && (r.op.Upsert? ==> |r.vector| == cfg.ops.dim) && s.wal == cfg.F().Frame(r) && s.durable <= |s.wal|
    requires base == if s.snapshot.Some? then s.snapshot.value.image else Memory(cfg.ops.empty, map[])
    requires r.id !in base.versions
    ensures
      var offset := if s.snapshot.Some? then s.snapshot.value.walOffset else 0;
      var mem := if |s.wal| <= offset then base else Install(cfg.ops, base, r);
      Goes(cfg, s, [r], Crashed(false, None, |s.wal|), State(mem, s.wal, s.durable, false, offset, s.snapshot), [r])
  {
    OneRecordLog(cfg, r);
    assert s.wal[..|s.wal|] == s.wal;
  }

  /** A power loss that leaves nothing of one unflushed record but its snapshot. */
  lemma ReopenNone<I>(cfg: Config<I>, s: State<I>, r: WalRecord)
    requires cfg.F().Fits(r) && s.wal == cfg.F().Frame(r) && s.durable == 0 && s.snapshot.Some?
    ensures Goes(cfg, s, [r], Crashed(true, None, 0), State(s.snapshot.value.image, [], 0, false, s.snapshot.value.walOffset, s.snapshot), [])
  {
    OneRecordLog(cfg, r);
    assert s.wal[..0] == [];
  }

  /** A log of one record: its bytes, its parse, and its replay from any offset. */
  lemma OneRecordLog<I>(cfg: Config<I>, r: WalRecord)
    requires cfg.F().Fits(r)
    ensures cfg.F().Frames([r]) == cfg.F().Frame(r) && cfg.F().Frames([]) == []
    ensures Parse(cfg.F(), cfg.F().Frame(r)) == [r] && Parse(cfg.F(), []) == []
    ensures forall m: Memory<I>, offset: nat :: ReplayFirst(cfg, m, [r], offset, 1) == if |cfg.F().Frame(r)| <= offset then Some(m) else ApplyRecord(cfg.ops, m, r)
    ensures WholeRecords(cfg.F(), [r], |cfg.F().Frame(r)|) == 1 && WholeRecords(cfg.F(), [r], 0) == 0
  {
    var f := cfg.F();
    assert [r][..0] == [] && [r][..1] == [r];
    WholeRecordsMost(f, [r], |f.Frame(r)|, 1);
    WholeRecordsMost(f, [r], 0, 1);
    ParseAfterCrash(cfg, [r], |f.Frame(r)|);
    ParseAfterCrash(cfg, [r], 0);
    assert f.Frame(r)[..|f.Frame(r)|] == f.Frame(r) && f.Frame(r)[..0] == [];
  }

  // ---- last-writer-wins view ------------------------------------------------

  function WriteOf(r: WalRecord): Lww.Write {
    Lww.Write(r.id, r.hlc, r.op.Delete?, if r.op.Delete? then [] else r.vector)
  }

  function Writes(log: seq<WalRecord>): seq<Lww.Write> { seq(|log|, i requires 0 <= i < |log| => WriteOf(log[i])) }

  /** What `records` streams for one id. */
  function Row<I>(ops: IndexOps<I>, m: Memory<I>, id: u64): Lww.Write
    requires id in m.versions
  {
    var v := m.versions[id];
    var live := ops.view(m.index);
    Lww.Write(id, v.hlc, v.tombstone, if v.tombstone || id !in live then [] else live[id])
  }

  function Contents<I>(ops: IndexOps<I>, m: Memory<I>): Lww.Store {
    map id | id in m.versions :: Row(ops, m, id)
  }

  /** An id is live in the index exactly when its version is not a tombstone. */
  ghost predicate IndexAgrees<I>(ops: IndexOps<I>, m: Memory<I>) {
    forall id: u64 :: id in ops.view(m.index) <==> id in m.versions && !m.versions[id].tombstone
  }

  lemma InstallView<I(!new)>(ops: IndexOps<I>, m: Memory<I>, r: WalRecord)
    requires IndexLaws(ops) && (r.op.Upsert? ==> |r.vector| == ops.dim)
    ensures ops.view(Install(ops, m, r).index) ==
            if r.op.Upsert? then ops.view(m.index)[r.id := r.vector] else ops.view(m.index) - {r.id}
  {}

  lemma InstallContents<I(!new)>(ops: IndexOps<I>, m: Memory<I>, r: WalRecord)
    requires IndexLaws(ops) && (r.op.Upsert? ==> |r.vector| == ops.dim)
    ensures Contents(ops, Install(ops, m, r)) == Contents(ops, m)[r.id := WriteOf(r)]
  {
    InstallView(ops, m, r);
    var after, expected := Contents(ops, Install(ops, m, r)), Contents(ops, m)[r.id := WriteOf(r)];
    assert after.Keys == expected.Keys;
    forall id | id in after ensures after[id] == expected[id] {}
  }

  /** Offering a record to a shard, winner or not, is one LWW step on its contents. */
  lemma InstallIsLwwApply<I(!new)>(ops: IndexOps<I>, m: Memory<I>, r: WalRecord)
    requires IndexLaws(ops) && IndexAgrees(ops, m)
    requires !IsStale(m, r.id, r.hlc) && (r.op.Upsert? ==> |r.vector| == ops.dim)
    ensures IndexAgrees(ops, Install(ops, m, r))
    ensures Contents(ops, Install(ops, m, r)) == Lww.Apply(Contents(ops, m), WriteOf(r))
  {
    InstallView(ops, m, r);
    InstallContents(ops, m, r);
  }

  lemma SubmitIsLwwApply<I(!new)>(cfg: Config<I>, s: State<I>, r: WalRecord)
    requires IndexLaws(cfg.ops) && IndexAgrees(cfg.ops, s.mem)
    ensures
      var (t, out) := Submit(cfg, s, r);
      && IndexAgrees(cfg.ops, t.mem)
      && (out == DimMismatch <==> r.op.Upsert? && |r.vector| != cfg.ops.dim)
      && (out == DimMismatch ==> t == s)
      && (out != DimMismatch ==> Contents(cfg.ops, t.mem) == Lww.Apply(Contents(cfg.ops, s.mem), WriteOf(r)))
      && (out == Stale <==> out != DimMismatch && Lww.IsStale(Contents(cfg.ops, s.mem), WriteOf(r)))
  {
    if Submit(cfg, s, r).1 == Applied { InstallIsLwwApply(cfg.ops, s.mem, r); }
  }

  lemma {:induction false} LogContents<I(!new)>(ops: IndexOps<I>, log: seq<WalRecord>)
    requires IndexLaws(ops) && Accepted(ops, log)
    ensures IndexAgrees(ops, FoldLog(ops, log))
    ensures Contents(ops, FoldLog(ops, log)) == Lww.ApplyAll(map[], Writes(log))
    decreases |log|
  {
    if log != [] {
      var n := |log| - 1;
      AcceptedPrefix(ops, log, n);
      LogContents(ops, log[..n]);
      assert Wins(ops, log, n);
      InstallIsLwwApply(ops, FoldLog(ops, log[..n]), log[n]);
      assert Writes(log)[..n] == Writes(log[..n]);
    }
  }

  /** At every point of every run the shard holds, for every id, the newest
      surviving write to it, and its index holds exactly the live ones. */
  lemma RunContents<I(!new)>(cfg: Config<I>, run: Run<I>, i: nat)
    requires IndexLaws(cfg.ops) && IsRun(cfg, run) && NeverBlind(run) && i < |run.states|
    ensures IndexAgrees(cfg.ops, run.states[i].mem)
    ensures Lww.IsLww(Contents(cfg.ops, run.states[i].mem), Lww.Elements(Writes(run.logs[i])))
  {
    RunMatchesSurvivingLog(cfg, run, i);
    LogContents(cfg.ops, run.logs[i]);
    Lww.ApplyAllIsLww(map[], {}, Writes(run.logs[i]));
    assert {} + Lww.Elements(Writes(run.logs[i])) == Lww.Elements(Writes(run.logs[i]));
  }

  // ---- the legacy path ------------------------------------------------------

  /** The unversioned `upsert`/`delete`: `Accept` without the version check. Whether it
      ends in a snapshot depends only on how far the WAL has grown. */
  predicate SnapshotDue<I>(cfg: Config<I>, s: State<I>, r: WalRecord) {
    cfg.thresholdBytes > 0 && |s.wal| + FramedLen(r) >= s.lastSnapshot + cfg.thresholdBytes
  }

  predicate StrictlyOlder<I>(m: Memory<I>, r: WalRecord) { r.id in m.versions && r.hlc.Lt(m.versions[r.id].hlc) }

  lemma LegacyState<I>(cfg: Config<I>, s: State<I>, r: WalRecord)
    ensures
      var t := Accept(cfg, s, r);
      && t.wal == s.wal + cfg.F().Frame(r) && t.mem == Install(cfg.ops, s.mem, r)
      && t.snapshot == if SnapshotDue(cfg, s, r) then Some(Snapshot(|t.wal|, t.mem)) else s.snapshot
  {}

  lemma ReplayUnfold<I>(cfg: Config<I>, m: Memory<I>, recs: seq<WalRecord>, offset: nat, p: nat)
    requires p < |recs|
    ensures
      var prev := ReplayFirst(cfg, m, recs, offset, p);
      ReplayFirst(cfg, m, recs, offset, p + 1) ==
      if prev.None? || |cfg.F().Frames(recs[..p + 1])| <= offset then prev else ApplyRecord(cfg.ops, prev.value, recs[p])
  {}

  /** Replay of the first records does not depend on what follows them. */
  lemma {:induction false} ReplayPrefix<I>(cfg: Config<I>, m: Memory<I>, recs: seq<WalRecord>, more: seq<WalRecord>, offset: nat, i: nat)
    requires i <= |recs|
    ensures ReplayFirst(cfg, m, recs + more, offset, i) == ReplayFirst(cfg, m, recs, offset, i)
    decreases i
  {
    if i > 0 {
      var p: nat := i - 1;
      ReplayPrefix(cfg, m, recs, more, offset, p);
      assert (recs + more)[..p + 1] == recs[..p + 1] && (recs + more)[p] == recs[p];
      ReplayUnfold(cfg, m, recs, offset, p);
      ReplayUnfold(cfg, m, recs + more, offset, p);
    }
  }

  lemma ParseOneMore<I>(cfg: Config<I>, log: seq<WalRecord>, r: WalRecord)
    requires cfg.F().AllFit(log) && cfg.F().Fits(r)
    ensures cfg.F().Frames(log + [r]) == cfg.F().Frames(log) + cfg.F().Frame(r)
    ensures Parse(cfg.F(), cfg.F().Frames(log) + cfg.F().Frame(r)) == log + [r]
  {
    var all := log + [r];
    assert all[..|log|] == log && all[..|all|] == all;
    var bytes := cfg.F().Frames(all);
    ParseAfterCrash(cfg, all, |bytes|);
    WholeRecordsMost(cfg.F(), all, |bytes|, |all|);
    assert bytes[..|bytes|] == bytes;
  }

  /** Replaying a log with one more record behind it, from a snapshot of any prefix. */
  lemma ReplayOneBehind<I>(cfg: Config<I>, log: seq<WalRecord>, j: nat, r: WalRecord)
    requires Accepted(cfg.ops, log) && j <= |log|
    ensures ReplayFirst(cfg, FoldLog(cfg.ops, log[..j]), log + [r], |cfg.F().Frames(log[..j])|, |log| + 1) == ApplyRecord(cfg.ops, FoldLog(cfg.ops, log), r)
  {
    var image, offset := FoldLog(cfg.ops, log[..j]), |cfg.F().Frames(log[..j])|;
    LogReplay(cfg, log, j, r);
    EndsBeyond(cfg, log, j, r);
    ReplayUnfold(cfg, image, log + [r], offset, |log|);
    assert (log + [r])[..|log| + 1] == log + [r];
  }

  lemma LogReplay<I>(cfg: Config<I>, log: seq<WalRecord>, j: nat, r: WalRecord)
    requires Accepted(cfg.ops, log) && j <= |log|
    ensures ReplayFirst(cfg, FoldLog(cfg.ops, log[..j]), log + [r], |cfg.F().Frames(log[..j])|, |log|) == Some(FoldLog(cfg.ops, log))
  {
    var image, offset := FoldLog(cfg.ops, log[..j]), |cfg.F().Frames(log[..j])|;
    assert log[..|log|] == log;
    ReplayRebuilds(cfg, log, j, |log|, image);
    ReplayPrefix(cfg, image, log, [r], offset, |log|);
  }

  lemma EndsBeyond<I>(cfg: Config<I>, log: seq<WalRecord>, j: nat, r: WalRecord)
    requires j <= |log|
    ensures |cfg.F().Frames(log[..j])| < |cfg.F().Frames(log + [r])|
  {
    var all := log + [r];
    assert all[..j] == log[..j] && all[..|all|] == all;
    FramesMonotone(cfg.F(), all, j, |all|);
  }

  /** What reopening makes of it. */
  lemma ReopenWithOneMore<I>(cfg: Config<I>, s: State<I>, log: seq<WalRecord>, r: WalRecord)
    requires Inv(cfg, s, log) && cfg.F().Fits(r)
    ensures Parse(cfg.F(), s.wal + cfg.F().Frame(r)) == log + [r]
    ensures
      var base := if s.snapshot.Some? then s.snapshot.value else Snapshot(0, Memory(cfg.ops.empty, map[]));
      ReplayFirst(cfg, base.image, log + [r], base.walOffset, |log| + 1) == ApplyRecord(cfg.ops, s.mem, r)
  {
    ParseOneMore(cfg, log, r);
    if s.snapshot.Some? {
      var j: nat :| SnapshotAt(cfg, s.snapshot.value, log, j);
      ReplayOneBehind(cfg, log, j, r);
    } else {
      assert log[..0] == [];
      ReplayOneBehind(cfg, log, 0, r);
    }
  }

  /** Recovery after an unversioned write rebuilds the live memory exactly when the
      record was not strictly older than the stored version or a snapshot followed. */
  lemma LegacyWriteRecoversIff<I>(cfg: Config<I>, s: State<I>, log: seq<WalRecord>, r: WalRecord, synced: nat)
    requires Inv(cfg, s, log) && cfg.F().Fits(r) && (r.op.Upsert? ==> |r.vector| == cfg.ops.dim)
    ensures
      var t := Accept(cfg, s, r);
      var reopened := Open(cfg, Disk(t.wal, synced, t.snapshot));
      reopened.Some? && (reopened.value.mem == t.mem <==> !StrictlyOlder(s.mem, r) || SnapshotDue(cfg, s, r))
  {
    LegacyState(cfg, s, r);
    ReopenWithOneMore(cfg, s, log, r);
    if SnapshotDue(cfg, s, r) {
      var t := Accept(cfg, s, r);
      assert cfg.F().Frames(log + [r]) == t.wal by { assert (log + [r])[..|log|] == log; }
      ReplaySkipsAll(cfg, t.mem, log + [r], |t.wal|, |log| + 1);
    } else if StrictlyOlder(s.mem, r) {
      assert Install(cfg.ops, s.mem, r).versions[r.id].hlc == r.hlc;
    }
  }

  /** For example: a stored point of stamp (2, 0), then an unversioned delete at (1, 0). */
  lemma LegacyDeleteForgotten<I>(cfg: Config<I>, id: u64, v: Vector)
    requires |v| == cfg.ops.dim && cfg.thresholdBytes == 0 && cfg.F().Fits(WalRecord(Upsert, Hlc(2, 0), id, v, []))
    ensures
      var s := Accept(cfg, Fresh(cfg), WalRecord(Upsert, Hlc(2, 0), id, v, []));
      var t := Accept(cfg, s, WalRecord(Delete, Hlc(1, 0), id, [], []));
      var reopened := Open(cfg, Disk(t.wal, |t.wal|, t.snapshot));
      reopened.Some? && t.mem.versions[id].tombstone && reopened.value.mem.versions == map[id := Version(Hlc(2, 0), false)]
  {
    var a, b := WalRecord(Upsert, Hlc(2, 0), id, v, []), WalRecord(Delete, Hlc(1, 0), id, [], []);
    var s := Accept(cfg, Fresh(cfg), a);
    OneAccepted(cfg, a);
    LegacyState(cfg, s, b);
    ReopenWithOneMore(cfg, s, [a], b);
  }

  lemma OneAccepted<I>(cfg: Config<I>, a: WalRecord)
    requires cfg.thresholdBytes == 0 && cfg.F().Fits(a) && (a.op.Upsert? ==> |a.vector| == cfg.ops.dim)
    ensures
      var s := Accept(cfg, Fresh(cfg), a);
      && Inv(cfg, s, [a]) && s.snapshot.None?
      && s.mem.versions == map[a.id := Version(a.hlc, a.op.Delete?)]
  {
    AcceptKeepsInv(cfg, Fresh(cfg), [], a);
    assert [] + [a] == [a];
    LegacyState(cfg, Fresh(cfg), a);
  }
}
