/** What holds over whole runs of the replication protocol: replicas converge once
    hints are drained, and overlapping quorums read acknowledged writes
    (crates/qv-node/src/router.rs). */
module Convergence {
  import opened Bytes
  import opened Clocks
  import opened Lww
  import opened Replication

  // ---- runs -----------------------------------------------------------------

  datatype Run = Run(states: seq<State>, steps: seq<Step>)

  ghost predicate Next(replicas: set<Node>, s: State, step: Step, t: State) {
    s.stores.Keys == replicas && HintsOk(replicas, s) && Enabled(replicas, s, step) && t == Do(replicas, s, step)
  }

  ghost predicate MovesAt(replicas: set<Node>, run: Run, i: nat)
    requires |run.states| == |run.steps| + 1 && i < |run.steps|
  {
    Next(replicas, run.states[i], run.steps[i], run.states[i + 1])
  }

  ghost predicate IsRun(replicas: set<Node>, run: Run) {
    && |run.states| == |run.steps| + 1
    && run.states[0] == Start(replicas)
    && forall i: nat | i < |run.steps| :: MovesAt(replicas, run, i)
  }

  ghost predicate Reachable(replicas: set<Node>, s: State) {
    exists run :: IsRun(replicas, run) && run.states[|run.steps|] == s
  }

  /** Every state of every run is safe: each issued write is in flight, abandoned by
      its coordinator, or at every replica covered or hinted. */
  lemma {:induction false} RunKeepsInv(replicas: set<Node>, run: Run, i: nat)
    requires IsRun(replicas, run) && i <= |run.steps|
    ensures Inv(replicas, run.states[i])
  {
    if i == 0 {
      StartInv(replicas);
    } else {
      var p: nat := i - 1;
      RunKeepsInv(replicas, run, p);
      assert MovesAt(replicas, run, p);
      StepKeepsInv(replicas, run.states[p], run.steps[p]);
    }
  }

  lemma ReachableInv(replicas: set<Node>, s: State)
    requires Reachable(replicas, s)
    ensures Inv(replicas, s)
  {
    var run :| IsRun(replicas, run) && run.states[|run.steps|] == s;
    RunKeepsInv(replicas, run, |run.steps|);
  }

  lemma StartReachable(replicas: set<Node>)
    ensures Reachable(replicas, Start(replicas))
  {
    var run := Run([Start(replicas)], []);
    assert IsRun(replicas, run) && run.states[|run.steps|] == Start(replicas);
  }

  /** Any enabled step extends a run, so `Next` restricts nothing beyond `Enabled`. */
  lemma ReachableStep(replicas: set<Node>, s: State, step: Step)
    requires Reachable(replicas, s) && Enabled(replicas, s, step)
    ensures Inv(replicas, s) && Reachable(replicas, Do(replicas, s, step))
  {
    ReachableInv(replicas, s);
    var run :| IsRun(replicas, run) && run.states[|run.steps|] == s;
    var t := Do(replicas, s, step);
    var more := Run(run.states + [t], run.steps + [step]);
    forall i: nat | i < |more.steps| ensures MovesAt(replicas, more, i) {
      if i < |run.steps| { assert MovesAt(replicas, run, i); }
    }
    assert more.states[|more.steps|] == t;
  }

  // ---- convergence ----------------------------------------------------------

  /** No write of `id` is in flight or hinted. */
  ghost predicate AtRest(s: State, id: u64) {
    && (forall op | op in s.pending :: s.pending[op].write.id != id)
    && (forall h, i | h in s.hints && 0 <= i < |s.hints[h]| :: s.hints[h][i].write.id != id)
  }

  /** Some write of the same id that was not abandoned is at least as new. */
  ghost predicate Outlived(issued: set<Write>, abandoned: set<Write>, w: Write) {
    exists v :: v in issued && v !in abandoned && v.id == w.id && w.hlc.Le(v.hlc)
  }

  ghost predicate Superseded(issued: set<Write>, abandoned: set<Write>, id: u64) {
    forall w | w in abandoned && w.id == id :: Outlived(issued, abandoned, w)
  }

  /** At rest, and every abandoned write of the id has been superseded. */
  ghost predicate Settled(s: State, id: u64) { AtRest(s, id) && Superseded(s.issued, s.abandoned, id) }

  /** `v` is the newest issued write of `id`, if there is one. */
  ghost predicate IsNewest(issued: set<Write>, id: u64, v: Option<Write>) {
    match v
    case None => forall w | w in issued :: w.id != id
    case Some(x) => x in issued && x.id == id && forall w | w in issued && w.id == id :: w.hlc.Le(x.hlc)
  }

  lemma FinishedCovers(replicas: set<Node>, s: State, n: Node, w: Write)
    requires Inv(replicas, s) && AtRest(s, w.id) && n in replicas && w in s.issued && w !in s.abandoned
    ensures Covers(s.stores[n], w)
  {
    assert !InFlight(s, w) && !HintPending(s, n, w);
    assert Safe(s, n, w);
  }

  lemma SettledCovers(replicas: set<Node>, s: State, n: Node, w: Write)
    requires Inv(replicas, s) && Settled(s, w.id) && n in replicas && w in s.issued
    ensures Covers(s.stores[n], w)
  {
    if w in s.abandoned {
      var v :| v in s.issued && v !in s.abandoned && v.id == w.id && w.hlc.Le(v.hlc);
      FinishedCovers(replicas, s, n, v);
    } else {
      FinishedCovers(replicas, s, n, w);
    }
  }

  /** A settled id has the newest issued version at every replica. */
  lemma SettledIsNewest(replicas: set<Node>, s: State, id: u64, n: Node)
    requires Inv(replicas, s) && Settled(s, id) && n in replicas
    ensures IsNewest(s.issued, id, Version(s.stores[n], id))
  {
    forall w | w in s.issued && w.id == id ensures Covers(s.stores[n], w) { SettledCovers(replicas, s, n, w); }
  }

  /** In every run, replicas agree on every settled id. */
  lemma ReplicasAgree(replicas: set<Node>, s: State, id: u64, m: Node, n: Node)
    requires Reachable(replicas, s) && Settled(s, id) && m in replicas && n in replicas
    ensures s.stores.Keys == replicas
    ensures Version(s.stores[m], id) == Version(s.stores[n], id)
    ensures IsNewest(s.issued, id, Version(s.stores[m], id))
  {
    ReachableInv(replicas, s);
    SettledIsNewest(replicas, s, id, m);
    SettledIsNewest(replicas, s, id, n);
  }

  /** Nothing in flight, every hint log drained, every abandoned write superseded. */
  ghost predicate Quiescent(s: State) {
    && s.pending == map[] && (forall h | h in s.hints :: s.hints[h] == [])
    && forall w | w in s.abandoned :: Outlived(s.issued, s.abandoned, w)
  }

  /** When the hint logs are empty all replicas hold one store: the last-writer-wins
      maximum of everything ever issued. */
  lemma DrainedHintsConverge(replicas: set<Node>, s: State, m: Node, n: Node)
    requires Reachable(replicas, s) && Quiescent(s) && m in replicas && n in replicas
    ensures s.stores.Keys == replicas
    ensures s.stores[m] == s.stores[n] && IsLww(s.stores[m], s.issued)
  {
    ReachableInv(replicas, s);
    QuiescentIsLww(replicas, s, m);
    QuiescentIsLww(replicas, s, n);
    LwwUnique(s.stores[m], s.stores[n], s.issued);
  }

  lemma QuiescentIsLww(replicas: set<Node>, s: State, n: Node)
    requires Inv(replicas, s) && Quiescent(s) && n in replicas
    ensures IsLww(s.stores[n], s.issued)
  {
    forall w | w in s.issued ensures Covers(s.stores[n], w) {
      assert AtRest(s, w.id) && Superseded(s.issued, s.abandoned, w.id);
      SettledCovers(replicas, s, n, w);
    }
  }

  // ---- overlapping quorums --------------------------------------------------

  lemma StepKeepsAcks(replicas: set<Node>, s: State, step: Step, t: State)
    requires Next(replicas, s, step, t)
    ensures s.acked <= t.acked
  {}

  lemma {:induction false} AckedGrows(replicas: set<Node>, run: Run, i: nat, j: nat)
    requires IsRun(replicas, run) && i <= j <= |run.steps|
    ensures run.states[i].acked <= run.states[j].acked
    decreases j
  {
    if i < j {
      var p: nat := j - 1;
      AckedGrows(replicas, run, i, p);
      assert MovesAt(replicas, run, p);
      StepKeepsAcks(replicas, run.states[p], run.steps[p], run.states[j]);
    }
  }

  ghost predicate SameRead(s: State, t: State, r: nat) {
    && r in s.gets && r in t.gets
    && t.gets[r].id == s.gets[r].id && t.gets[r].level == s.gets[r].level && t.gets[r].before == s.gets[r].before
  }

  lemma StepKeepsRead(replicas: set<Node>, s: State, step: Step, t: State, r: nat)
    requires Next(replicas, s, step, t) && step != ReadEnd(r) && r in s.gets
    ensures SameRead(s, t, r)
  {}

  /** While a read is not ended, what it is about does not change. */
  lemma {:induction false} ReadPersists(replicas: set<Node>, run: Run, j: nat, k: nat, r: nat)
    requires IsRun(replicas, run) && j <= k <= |run.steps| && r in run.states[j].gets
    requires forall i: nat | j <= i < k :: run.steps[i] != ReadEnd(r)
    ensures SameRead(run.states[j], run.states[k], r)
    decreases k
  {
    if j < k {
      var p: nat := k - 1;
      ReadPersists(replicas, run, j, p, r);
      assert MovesAt(replicas, run, p);
      StepKeepsRead(replicas, run.states[p], run.steps[p], run.states[k], r);
    }
  }

  /** Two subsets of `all` with more members together than `all` share one. */
  lemma SubsetsMeet<T>(a: set<T>, b: set<T>, all: set<T>)
    requires a <= all && b <= all && |a| + |b| > |all|
    ensures exists x :: x in a && x in b
  {
    if a !! b {
      assert |a + b| == |a| + |b|;
      SubsetSmaller(a + b, all);
    }
  }

  lemma SubsetSmaller<T>(a: set<T>, b: set<T>)
    requires a <= b
    ensures |a| <= |b|
  {
    assert b == a + (b - a);
  }

  /** The version a Get returns: a newest one among the answers. */
  ghost predicate IsWinner(responses: map<Node, Option<Write>>, win: Option<Write>) {
    match win
    case None => forall n | n in responses :: responses[n].None?
    case Some(x) =>
      && (exists n :: n in responses && responses[n] == Some(x))
      && (forall n | n in responses && responses[n].Some? :: responses[n].value.hlc.Le(x.hlc))
  }

  lemma QuorumSeesAck(replicas: set<Node>, s: State, rd: Read, a: Ack, win: Option<Write>)
    requires s.stores.Keys == replicas && ReadOk(replicas, s, rd) && AckOk(replicas, s, a)
    requires a in rd.before && a.write.id == rd.id && Overlap(a.level, rd.level, |replicas|)
    requires |rd.responses| >= Count(rd.level, |replicas|) && IsWinner(rd.responses, win)
    ensures win.Some? && win.value.id == rd.id && win.value in s.issued && a.write.hlc.Le(win.value.hlc)
  {
    assert |rd.responses.Keys| == |rd.responses|;
    SubsetsMeet(a.ackers, rd.responses.Keys, replicas);
    var n :| n in a.ackers && n in rd.responses.Keys;
    assert rd.responses[n].Some? && a.write.hlc.Le(rd.responses[n].value.hlc);
  }

  lemma FinishRecordsAck(replicas: set<Node>, run: Run, i: nat, op: nat)
    requires IsRun(replicas, run) && i < |run.steps| && run.steps[i] == Finish(op) && op in run.states[i].pending
    requires |run.states[i].pending[op].ackers| >= Count(run.states[i].pending[op].level, |replicas|)
    ensures var p := run.states[i].pending[op]; Ack(p.write, p.level, p.ackers) in run.states[i + 1].acked
  {
    assert MovesAt(replicas, run, i);
  }

  lemma ReadBeginsWith(replicas: set<Node>, run: Run, j: nat, r: nat, id: u64, level: Level)
    requires IsRun(replicas, run) && j < |run.steps| && run.steps[j] == ReadBegin(r, id, level)
    ensures r in run.states[j + 1].gets && run.states[j + 1].gets[r] == Read(id, level, run.states[j].acked, map[])
  {
    assert MovesAt(replicas, run, j);
  }

  /** A Get that began after an acknowledgement has it in its history when it ends. */
  lemma ReadKnowsAck(replicas: set<Node>, run: Run, i: nat, j: nat, k: nat, op: nat, r: nat, id: u64, level: Level)
    requires IsRun(replicas, run) && i < j < k < |run.steps|
    requires run.steps[i] == Finish(op) && op in run.states[i].pending
    requires |run.states[i].pending[op].ackers| >= Count(run.states[i].pending[op].level, |replicas|)
    requires run.steps[j] == ReadBegin(r, id, level)
    requires run.steps[k] == ReadEnd(r) && forall x: nat | j < x < k :: run.steps[x] != ReadEnd(r)
    ensures r in run.states[k].gets
    ensures
      var p, rd := run.states[i].pending[op], run.states[k].gets[r];
      var a := Ack(p.write, p.level, p.ackers);
      rd.id == id && rd.level == level && a in rd.before && a in run.states[k].acked
  {
    FinishRecordsAck(replicas, run, i, op);
    ReadBeginsWith(replicas, run, j, r, id, level);
    ReadPersists(replicas, run, j + 1, k, r);
    AckedGrows(replicas, run, i + 1, j);
    AckedGrows(replicas, run, j, k);
  }

  /** Read your acknowledged writes. In every run: a write is acknowledged at step `i`,
      a Get of the same id begins at a later step `j` and ends at step `k` with enough
      answers for its level. When the two levels overlap, the Get selects a version at least as new as the write,
      whatever was interleaved. */
  lemma AcknowledgedWritesAreRead(replicas: set<Node>, run: Run, i: nat, j: nat, k: nat, op: nat, r: nat, level: Level, win: Option<Write>)
    requires IsRun(replicas, run) && i < j < k < |run.steps|
    requires run.steps[i] == Finish(op) && op in run.states[i].pending
    requires var p := run.states[i].pending[op];
      && |p.ackers| >= Count(p.level, |replicas|)
      && run.steps[j] == ReadBegin(r, p.write.id, level) && Overlap(p.level, level, |replicas|)
    requires run.steps[k] == ReadEnd(r) && forall x: nat | j < x < k :: run.steps[x] != ReadEnd(r)
    ensures r in run.states[k].gets
    ensures |run.states[k].gets[r].responses| >= Count(level, |replicas|) && IsWinner(run.states[k].gets[r].responses, win) ==>
      win.Some? && win.value.id == run.states[i].pending[op].write.id && run.states[i].pending[op].write.hlc.Le(win.value.hlc)
  {
    var p := run.states[i].pending[op];
    var a := Ack(p.write, p.level, p.ackers);
    ReadKnowsAck(replicas, run, i, j, k, op, r, p.write.id, level);
    RunKeepsInv(replicas, run, k);
    var s := run.states[k];
    if |s.gets[r].responses| >= Count(level, |replicas|) && IsWinner(s.gets[r].responses, win) { QuorumSeesAck(replicas, s, s.gets[r], a, win); }
  }

  /** QUORUM writes and QUORUM reads overlap for every replica count. */
  lemma QuorumOverlapsQuorum(n: nat)
    ensures Overlap(Quorum, Quorum, n)
  {}
}
