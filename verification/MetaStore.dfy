/** The durable state-machine store under the Raft log
    (crates/qv-cluster/src/raft/store.rs). */
module MetaStore {
  import opened Bytes
  import opened Metadata

  type Members = set<u64>

  datatype Payload = Blank | Normal(req: Request) | Membership(members: Members)

  /** The last membership entry applied and its log index, if any. */
  datatype StoredMembership = NoMembership | At(index: nat, members: Members)

  /** What the store keeps in memory, writes to disk and puts in a snapshot:
      how much of the log it reflects, the membership and the metadata. */
  datatype Image = Image(lastApplied: Option<nat>, membership: StoredMembership, state: MetaState)

  const INITIAL := Image(None, NoMembership, EMPTY)

  function ApplyEntry(im: Image, index: nat, p: Payload): Image {
    match p
    case Blank => im.(lastApplied := Some(index))
    case Normal(req) => im.(lastApplied := Some(index), state := Apply(im.state, req))
    case Membership(ms) => im.(lastApplied := Some(index), membership := At(index, ms))
  }

  /** The image of the first `k` log entries: one fold, no batching, no snapshots. */
  function ImageAt(log: seq<Payload>, k: nat): Image
    requires k <= |log|
  {
    if k == 0 then INITIAL else ApplyEntry(ImageAt(log, k - 1), k - 1, log[k - 1])
  }

  function NextIndex(im: Image): nat { if im.lastApplied.None? then 0 else im.lastApplied.value + 1 }

  /** The image is the fold of the log up to its own last-applied index. */
  ghost predicate Faithful(log: seq<Payload>, im: Image) {
    NextIndex(im) <= |log| && im == ImageAt(log, NextIndex(im))
  }

  // ---- one store ------------------------------------------------------------

  datatype Store = Store(mem: Image, disk: Image, snapshot: Option<Image>)

  function Batch(im: Image, log: seq<Payload>, n: nat): Image
    requires NextIndex(im) + n <= |log|
    decreases n
  {
    if n == 0 then im
    else
      var k := NextIndex(im);
      BatchIndex(im, k, log[k]);
      Batch(ApplyEntry(im, k, log[k]), log, n - 1)
  }

  lemma BatchIndex(im: Image, k: nat, p: Payload)
    requires k == NextIndex(im)
    ensures NextIndex(ApplyEntry(im, k, p)) == k + 1
  {}

  lemma {:induction false} BatchSnoc(im: Image, log: seq<Payload>, n: nat)
    requires NextIndex(im) + n + 1 <= |log|
    ensures NextIndex(Batch(im, log, n)) == NextIndex(im) + n
    ensures Batch(im, log, n + 1) == ApplyEntry(Batch(im, log, n), NextIndex(im) + n, log[NextIndex(im) + n])
    decreases n
  {
    if n > 0 {
      var k := NextIndex(im);
      BatchIndex(im, k, log[k]);
      BatchSnoc(ApplyEntry(im, k, log[k]), log, n - 1);
    }
  }

  /** The response to the `j`-th entry of a batch: it sees the entries before it. */
  function NoteAt(im: Image, log: seq<Payload>, j: nat): string
    requires NextIndex(im) + j < |log|
  {
    match log[NextIndex(im) + j]
    case Blank => "blank"
    case Normal(req) => Note(Batch(im, log, j).state, req)
    case Membership(_) => "membership"
  }

  /** Any batching of the log agrees with the single fold. */
  lemma {:induction false} BatchIsFold(log: seq<Payload>, im: Image, n: nat)
    requires Faithful(log, im) && NextIndex(im) + n <= |log|
    ensures Batch(im, log, n) == ImageAt(log, NextIndex(im) + n) && Faithful(log, Batch(im, log, n))
    decreases n
  {
    if n > 0 {
      var k := NextIndex(im);
      BatchIndex(im, k, log[k]);
      assert ApplyEntry(im, k, log[k]) == ImageAt(log, k + 1);
      BatchIsFold(log, ApplyEntry(im, k, log[k]), n - 1);
    }
  }

  function Opened(disk: Image): Store {
    Store(disk, disk, if disk.lastApplied.Some? then Some(disk) else None)
  }

  // ---- a cluster of stores --------------------------------------------------

  /** What can happen to some node: it applies the next entries, builds a snapshot,
      installs one that another node built, or restarts from its disk. */
  datatype Event =
    | Applied(node: nat, n: nat)
    | Built(node: nat)
    | Installed(node: nat, from: nat)
    | Restarted(node: nat)

  ghost predicate Enabled(log: seq<Payload>, c: seq<Store>, e: Event) {
    && e.node < |c|
    && match e
       case Applied(x, n) => NextIndex(c[x].mem) + n <= |log|
       case Installed(_, from) => from < |c| && c[from].snapshot.Some?
       case _ => true
  }

  function Step(log: seq<Payload>, c: seq<Store>, e: Event): seq<Store>
    requires Enabled(log, c, e)
  {
    var s := c[e.node];
    match e
    case Applied(x, n) => var im := Batch(s.mem, log, n); c[x := s.(mem := im, disk := im)]
    case Built(x) => c[x := s.(snapshot := Some(s.mem))]
    case Installed(x, from) => var im := c[from].snapshot.value; c[x := Store(im, im, Some(im))]
    case Restarted(x) => c[x := Opened(s.disk)]
  }

  /** Everything each node holds, in memory, on disk or as a snapshot, is a fold of the log. */
  ghost predicate AllFaithful(log: seq<Payload>, c: seq<Store>) {
    forall x | 0 <= x < |c| ::
      && Faithful(log, c[x].mem) && Faithful(log, c[x].disk)
      && (c[x].snapshot.Some? ==> Faithful(log, c[x].snapshot.value))
  }

  /** A restarted node offers a snapshot exactly when it has applied something, and that
      snapshot is what it applied. */
  lemma RestartOffers(log: seq<Payload>, c: seq<Store>, x: nat)
    requires AllFaithful(log, c) && x < |c|
    ensures
      var s := Step(log, c, Restarted(x))[x];
      && (s.snapshot.Some? <==> NextIndex(c[x].disk) > 0)
      && (s.snapshot.Some? ==> s.snapshot.value == s.mem == ImageAt(log, NextIndex(c[x].disk)))
  {}

  lemma StepKeepsFaithful(log: seq<Payload>, c: seq<Store>, e: Event)
    requires AllFaithful(log, c) && Enabled(log, c, e)
    ensures AllFaithful(log, Step(log, c, e))
  {
    match e
    case Applied(x, n) => BatchIsFold(log, c[x].mem, n);
    case _ =>
  }

  ghost predicate IsRun(log: seq<Payload>, run: seq<seq<Store>>, es: seq<Event>) {
    && |run| == |es| + 1
    && (forall x | 0 <= x < |run[0]| :: run[0][x] == Opened(INITIAL))
    && forall i | 0 <= i < |es| :: Moves(log, run, es, i)
  }

  ghost predicate Moves(log: seq<Payload>, run: seq<seq<Store>>, es: seq<Event>, i: nat)
    requires i < |es| < |run|
  {
    Enabled(log, run[i], es[i]) && run[i + 1] == Step(log, run[i], es[i])
  }

  lemma {:induction false} RunKeepsFaithful(log: seq<Payload>, run: seq<seq<Store>>, es: seq<Event>, i: nat)
    requires IsRun(log, run, es) && i <= |es|
    ensures AllFaithful(log, run[i])
  {
    if i == 0 {
      assert Faithful(log, INITIAL);
    } else {
      RunKeepsFaithful(log, run, es, i - 1);
      assert Moves(log, run, es, i - 1);
      StepKeepsFaithful(log, run[i - 1], es[i - 1]);
    }
  }

  /** The requests among the first `k` log entries. */
  function Requests(log: seq<Payload>, k: nat): seq<Request>
    requires k <= |log|
  {
    if k == 0 then [] else Requests(log, k - 1) + if log[k - 1].Normal? then [log[k - 1].req] else []
  }

  lemma {:induction false} ImageState(log: seq<Payload>, k: nat)
    requires k <= |log|
    ensures ImageAt(log, k).state == Fold(Requests(log, k))
  {
    if k > 0 {
      ImageState(log, k - 1);
      var rs := Requests(log, k);
      if log[k - 1].Normal? { assert rs[..|rs| - 1] == Requests(log, k - 1); }
      else { assert rs == Requests(log, k - 1); }
    }
  }

  ghost predicate LastMembership(log: seq<Payload>, k: nat, i: nat) {
    i < k <= |log| && log[i].Membership? && forall j | i < j < k :: !log[j].Membership?
  }

  /** The membership is the last membership entry applied, at its own index. */
  lemma {:induction false} ImageMembership(log: seq<Payload>, k: nat)
    requires k <= |log|
    ensures ImageAt(log, k).membership == NoMembership <==> forall i | 0 <= i < k :: !log[i].Membership?
    ensures forall i: nat | LastMembership(log, k, i) :: ImageAt(log, k).membership == At(i, log[i].members)
  {
    if k > 0 {
      var p: nat := k - 1;
      ImageMembership(log, p);
      forall i: nat | LastMembership(log, k, i) ensures ImageAt(log, k).membership == At(i, log[i].members) {
        if i < p { assert LastMembership(log, p, i); }
      }
    }
  }

  /** At every point of every run, whatever the batching, snapshots and restarts, each
      node's metadata is the fold of the requests it has applied; so two nodes that
      have applied equally much agree on metadata and membership. */
  lemma RunsAgree(log: seq<Payload>, run: seq<seq<Store>>, es: seq<Event>, i: nat, x: nat, y: nat)
    requires IsRun(log, run, es) && i <= |es| && x < |run[i]| && y < |run[i]|
    ensures NextIndex(run[i][x].mem) <= |log| && run[i][x].mem.state == Fold(Requests(log, NextIndex(run[i][x].mem)))
    ensures forall m: nat | LastMembership(log, NextIndex(run[i][x].mem), m) :: run[i][x].mem.membership == At(m, log[m].members)
    ensures run[i][x].mem.lastApplied == run[i][y].mem.lastApplied ==> run[i][x].mem == run[i][y].mem
  {
    RunKeepsFaithful(log, run, es, i);
    ImageState(log, NextIndex(run[i][x].mem));
    ImageMembership(log, NextIndex(run[i][x].mem));
  }

  /** The store object. A log entry arrives with its own index. */
  class StateMachineStore {
    var mem: Image
    var disk: Image
    var snapshot: Option<Image>

    function Value(): Store
      reads this
    {
      Store(mem, disk, snapshot)
    }

    /** Everything the node holds is a fold of a prefix of this log. */
    ghost predicate FaithfulTo(log: seq<Payload>)
      reads this
    {
      Faithful(log, mem) && Faithful(log, disk) && (snapshot.Some? ==> Faithful(log, snapshot.value))
    }

    /** `open`: recover the applied state and offer it as a snapshot. */
    constructor (onDisk: Image)
      ensures Value() == Opened(onDisk)
      ensures mem == disk == onDisk && (snapshot.Some? <==> onDisk.lastApplied.Some?) && (snapshot.Some? ==> snapshot.value == onDisk)
    {
      mem, disk := onDisk, onDisk;
      snapshot := if onDisk.lastApplied.Some? then Some(onDisk) else None;
    }

    /** Apply a batch of the committed log in order, then persist once. */
    method ApplyBatch(log: seq<Payload>, n: nat) returns (notes: seq<string>)
      requires NextIndex(mem) + n <= |log|
      modifies this
      ensures Value() == Store(Batch(old(mem), log, n), Batch(old(mem), log, n), old(snapshot))
      ensures |notes| == n
      ensures forall j | 0 <= j < n :: notes[j] == NoteAt(old(mem), log, j)
      ensures old(FaithfulTo(log)) ==> FaithfulTo(log) && mem == ImageAt(log, NextIndex(old(mem)) + n)
    {
      if FaithfulTo(log) { BatchIsFold(log, mem, n); }
      notes := [];
      ghost var first := NextIndex(mem);
      var i := 0;
      while i < n
        invariant 0 <= i <= n && |notes| == i && disk == old(disk) && snapshot == old(snapshot)
        invariant first + n <= |log| && NextIndex(mem) == first + i && mem == Batch(old(mem), log, i)
        invariant forall j | 0 <= j < i :: notes[j] == NoteAt(old(mem), log, j)
      {
        BatchSnoc(old(mem), log, i);
        var index := NextIndex(mem);
        BatchIndex(mem, index, log[index]);
        match log[index] {
          case Blank =>
            mem := mem.(lastApplied := Some(index));
            notes := notes + ["blank"];
          case Normal(req) =>
            notes := notes + [Note(mem.state, req)];
            mem := mem.(lastApplied := Some(index), state := Apply(mem.state, req));
          case Membership(ms) =>
            mem := mem.(lastApplied := Some(index), membership := At(index, ms));
            notes := notes + ["membership"];
        }
        i := i + 1;
      }
      disk := mem;
    }

    /** The snapshot handed out stands for exactly the log prefix this node has applied. */
    method BuildSnapshot() returns (s: Image)
      modifies this
      ensures Value() == old(Value()).(snapshot := Some(s))
      ensures NextIndex(s) == NextIndex(old(mem))
      ensures forall log | old(FaithfulTo(log)) :: FaithfulTo(log) && s == ImageAt(log, NextIndex(old(mem)))
    {
      snapshot := Some(mem);
      s := mem;
    }

    /** Whatever the node held before, afterwards all of it is the received image, which a
        restart also recovers. */
    method InstallSnapshot(s: Image)
      modifies this
      ensures Value() == Store(s, s, Some(s))
      ensures forall log | Faithful(log, s) :: FaithfulTo(log) && Faithful(log, Opened(disk).mem) && mem == ImageAt(log, NextIndex(s))
    {
      mem := s;
      disk := s;
      snapshot := Some(s);
    }
  }

  /** A lagging node catches up by snapshot and then restarts: the restarted node holds
      what folding the log up to the sender's position gives. */
  method CatchUp(sender: StateMachineStore, receiver: StateMachineStore, ghost log: seq<Payload>) returns (restarted: StateMachineStore)
    requires sender != receiver && sender.FaithfulTo(log)
    modifies sender, receiver
    ensures fresh(restarted) && sender.FaithfulTo(log) && receiver.FaithfulTo(log) && restarted.FaithfulTo(log)
    ensures sender.mem == old(sender.mem) && restarted.mem == receiver.mem == ImageAt(log, NextIndex(old(sender.mem)))
  {
    var image := sender.BuildSnapshot();
    receiver.InstallSnapshot(image);
    restarted := new StateMachineStore(receiver.disk);
  }
}
