/** The shard object (crates/qv-storage/src/shard.rs), each operation proved
    against its specification function. */
module DurableShard {
  import opened Bytes
  import opened Clocks
  import opened FramedLog
  import opened Wal
  import opened Shards
  import opened ShardRuns
  import Lww

  class Shard<I> {
    const cfg: Config<I>
    var index: I
    var versions: map<u64, Version>
    var wal: seq<byte>
    var durable: nat
    var dirty: bool
    var lastSnapshot: nat
    var snapshot: Option<Snapshot<I>>

    function Value(): State<I>
      reads this
    {
      State(Memory(index, versions), wal, durable, dirty, lastSnapshot, snapshot)
    }

    constructor (cfg: Config<I>, index: I, versions: map<u64, Version>, wal: seq<byte>, durable: nat, lastSnapshot: nat, snapshot: Option<Snapshot<I>>)
      ensures this.cfg == cfg
      ensures Value() == State(Memory(index, versions), wal, durable, false, lastSnapshot, snapshot)
    {
      this.cfg, this.index, this.versions := cfg, index, versions;
      this.wal, this.durable, this.dirty := wal, durable, false;
      this.lastSnapshot, this.snapshot := lastSnapshot, snapshot;
    }

    method FlushWal()
      modifies this
      ensures Value() == Flush(old(Value()))
    {
      if dirty {
        durable := |wal|;
        dirty := false;
      }
    }

    method AppendWal(r: WalRecord)
      modifies this
      ensures Value() == Append(cfg, old(Value()), r)
    {
      var body := Encode(r);
      wal := wal + ToLe(4, 4 + |body|) + ToLe(4, cfg.crc(body)) + body;
      dirty := true;
      assert wal == old(wal) + cfg.F().Frame(r);
      if cfg.batchMs == 0 { FlushWal(); }
    }

    method TakeSnapshot()
      modifies this
      ensures Value() == SnapshotNow(old(Value()))
    {
      FlushWal();
      var offset := |wal|;
      snapshot := Some(Snapshot(offset, Memory(index, versions)));
      lastSnapshot := offset;
    }

    method TakeSnapshotIfDue()
      modifies this
      ensures Value() == MaybeSnapshot(cfg, old(Value()))
    {
      if cfg.thresholdBytes == 0 { return; }
      var grown := if |wal| < lastSnapshot then 0 else |wal| - lastSnapshot;
      if grown >= cfg.thresholdBytes { TakeSnapshot(); }
    }

    method UpsertVersioned(hlc: Hlc, id: u64, vector: Vector, payload: seq<byte>) returns (out: Outcome)
      modifies this
      ensures (Value(), out) == Submit(cfg, old(Value()), WalRecord(Upsert, hlc, id, vector, payload))
    {
      if |vector| != cfg.ops.dim { return DimMismatch; }
      if IsStale(Memory(index, versions), id, hlc) { return Stale; }
      AppendWal(WalRecord(Upsert, hlc, id, vector, payload));
      index := cfg.ops.insert(index, id, vector);
      versions := versions[id := Version(hlc, false)];
      TakeSnapshotIfDue();
      out := Applied;
    }

    method DeleteVersioned(hlc: Hlc, id: u64) returns (out: Outcome)
      modifies this
      ensures (Value(), out) == Submit(cfg, old(Value()), WalRecord(Delete, hlc, id, [], []))
    {
      if IsStale(Memory(index, versions), id, hlc) { return Stale; }
      AppendWal(WalRecord(Delete, hlc, id, [], []));
      index := cfg.ops.delete(index, id);
      versions := versions[id := Version(hlc, true)];
      TakeSnapshotIfDue();
      out := Applied;
    }

    /** The unversioned `upsert`: no staleness check. */
    method UpsertUnversioned(hlc: Hlc, id: u64, vector: Vector, payload: seq<byte>) returns (ok: bool)
      modifies this
      ensures ok <==> |vector| == cfg.ops.dim
      ensures Value() == if ok then Accept(cfg, old(Value()), WalRecord(Upsert, hlc, id, vector, payload)) else old(Value())
    {
      if |vector| != cfg.ops.dim { return false; }
      AppendWal(WalRecord(Upsert, hlc, id, vector, payload));
      index := cfg.ops.insert(index, id, vector);
      versions := versions[id := Version(hlc, false)];
      TakeSnapshotIfDue();
      ok := true;
    }

    method DeleteUnversioned(hlc: Hlc, id: u64)
      modifies this
      ensures Value() == Accept(cfg, old(Value()), WalRecord(Delete, hlc, id, [], []))
    {
      AppendWal(WalRecord(Delete, hlc, id, [], []));
      index := cfg.ops.delete(index, id);
      versions := versions[id := Version(hlc, true)];
      TakeSnapshotIfDue();
    }

    /** Every record the shard has seen, tombstones included, each id once. */
    method Records() returns (rows: seq<Lww.Write>)
      ensures Lww.Elements(rows) == Contents(cfg.ops, Memory(index, versions)).Values
      ensures forall i, j | 0 <= i < j < |rows| :: rows[i].id != rows[j].id
    {
      var m := Memory(index, versions);
      ghost var c := Contents(cfg.ops, m);
      rows := [];
      var todo := versions.Keys;
      while todo != {}
        invariant todo <= versions.Keys
        invariant forall w :: w in rows <==> w.id in versions.Keys - todo && w == c[w.id]
        invariant forall i, j | 0 <= i < j < |rows| :: rows[i].id != rows[j].id
        decreases todo
      {
        var id :| id in todo;
        todo := todo - {id};
        rows := rows + [Row(cfg.ops, m, id)];
      }
      assert forall w :: w in rows <==> w in c.Values;
    }

    /** Load the snapshot, recover the WAL, replay what the snapshot does not cover. */
    static method OpenDir(cfg: Config<I>, d: Disk<I>) returns (r: Option<Shard<I>>)
      ensures r.Some? <==> Open(cfg, d).Some?
      ensures r.Some? ==> fresh(r.value) && r.value.cfg == cfg && r.value.Value() == Open(cfg, d).value
    {
      var base := if d.snapshot.Some? then d.snapshot.value else Snapshot(0, Memory(cfg.ops.empty, map[]));
      var records, kept := Recover(cfg.crc, d.wal);
      WalBodiesInjective(cfg.crc);
      ParseUnique(cfg.F(), d.wal, records, Parse(cfg.F(), d.wal));
      var m := ReplayTail(cfg, base, records);
      if m.None? { return None; }
      var durable := if |kept| < |d.wal| then |kept| else d.synced;
      var s := new Shard<I>(cfg, m.value.index, m.value.versions, kept, durable, base.walOffset, d.snapshot);
      r := Some(s);
    }
  }

  /** Walk the records with running byte offsets and apply those beyond the snapshot. */
  method ReplayTail<I>(cfg: Config<I>, base: Snapshot<I>, records: seq<WalRecord>) returns (r: Option<Memory<I>>)
    ensures r == ReplayFirst(cfg, base.image, records, base.walOffset, |records|)
  {
    var m := base.image;
    var pos := 0;
    assert records[..0] == [];
    for i := 0 to |records|
      invariant pos == |cfg.F().Frames(records[..i])|
      invariant ReplayFirst(cfg, base.image, records, base.walOffset, i) == Some(m)
    {
      var rec := records[i];
      var end := pos + FramedLen(rec);
      FramesSplit(cfg.F(), records, i);
      if end > base.walOffset {
        var next := ApplyRecord(cfg.ops, m, rec);
        if next.None? {
          ReplayFailureSticks(cfg, base.image, records, base.walOffset, i + 1, |records|);
          return None;
        }
        m := next.value;
      }
      pos := end;
    }
    r := Some(m);
  }

  lemma {:induction false} ReplayFailureSticks<I>(cfg: Config<I>, m: Memory<I>, recs: seq<WalRecord>, offset: nat, i: nat, j: nat)
    requires i <= j <= |recs| && ReplayFirst(cfg, m, recs, offset, i).None?
    ensures ReplayFirst(cfg, m, recs, offset, j).None?
    decreases j - i
  {
    if i < j {
      ReplayStepFails(cfg, m, recs, offset, i);
      ReplayFailureSticks(cfg, m, recs, offset, i + 1, j);
    }
  }

  lemma ReplayStepFails<I>(cfg: Config<I>, m: Memory<I>, recs: seq<WalRecord>, offset: nat, i: nat)
    requires i < |recs| && ReplayFirst(cfg, m, recs, offset, i).None?
    ensures ReplayFirst(cfg, m, recs, offset, i + 1).None?
  {}
}
