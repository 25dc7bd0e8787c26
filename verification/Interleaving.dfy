/** The coordinator's operations with anything else the cluster does in between: before
    each of their steps any steps of other operations may happen
    (crates/qv-node/src/router.rs). */
module Interleaving {
  import opened Bytes
  import opened Clocks
  import opened Lww
  import opened Replication
  import opened Convergence
  import opened Coordinator

  /** What others do before the `i`-th step of an operation. */
  type Meanwhile = nat -> seq<Step>

  /** A step of another write than `op`. */
  predicate LeavesWrite(step: Step, op: nat) {
    match step
    case Issue(o, _, _, _) => o != op
    case Answer(o, _) => o != op
    case Fail(o, _) => o != op
    case Buffer(o, _) => o != op
    case Finish(o) => o != op
    case Abandon(o) => o != op
    case _ => true
  }

  /** A step of another Get than `r`. */
  predicate LeavesRead(step: Step, r: nat) {
    match step
    case ReadBegin(x, _, _) => x != r
    case ReadOne(x, _) => x != r
    case ReadEnd(x) => x != r
    case _ => true
  }

  /** Stores only move forward and acknowledgements stay. */
  ghost predicate Later(replicas: set<Node>, s: State, t: State) {
    && s.stores.Keys == replicas && t.stores.Keys == replicas && s.acked <= t.acked && s.issued <= t.issued
    && forall n | n in replicas :: AtLeast(t.stores[n], s.stores[n])
  }

  lemma LaterTransitive(replicas: set<Node>, a: State, b: State, c: State)
    requires Later(replicas, a, b) && Later(replicas, b, c)
    ensures Later(replicas, a, c)
  {
    forall n | n in replicas ensures AtLeast(c.stores[n], a.stores[n]) { AtLeastTransitive(a.stores[n], b.stores[n], c.stores[n]); }
  }

  /** Every protocol step moves the cluster forward. */
  lemma StepIsLater(replicas: set<Node>, s: State, step: Step)
    requires s.stores.Keys == replicas && HintsOk(replicas, s) && Enabled(replicas, s, step)
    ensures Later(replicas, s, Do(replicas, s, step))
  {
    match step
    case Deliver(n, w) => ApplyMovesForward(s.stores[n], w);
    case Answer(op, n) => ApplyMovesForward(s.stores[n], s.pending[op].write);
    case Replay(h, ok) => PushHintsLosesNothing(s.stores, HintsAt(s, h), ok);
    case _ =>
  }

  /** The part of the state an operation relies on. */
  ghost predicate Undisturbed(s: State, t: State, op: Option<nat>, r: Option<nat>) {
    && (op.Some? ==> (op.value in s.pending <==> op.value in t.pending) && (op.value in s.pending ==> t.pending[op.value] == s.pending[op.value]))
    && (r.Some? ==> (r.value in s.gets <==> r.value in t.gets) && (r.value in s.gets ==> t.gets[r.value] == s.gets[r.value]))
  }

  lemma StepLeaves(replicas: set<Node>, s: State, step: Step, op: Option<nat>, r: Option<nat>)
    requires s.stores.Keys == replicas && HintsOk(replicas, s) && Enabled(replicas, s, step)
    requires (op.Some? ==> LeavesWrite(step, op.value)) && (r.Some? ==> LeavesRead(step, r.value))
    ensures Undisturbed(s, Do(replicas, s, step), op, r)
  {}

  ghost predicate Happens(replicas: set<Node>, s: State, step: Step, op: Option<nat>, r: Option<nat>) {
    && s.stores.Keys == replicas && HintsOk(replicas, s) && Enabled(replicas, s, step)
    && (op.Some? ==> LeavesWrite(step, op.value)) && (r.Some? ==> LeavesRead(step, r.value))
  }

  /** The state after those of the steps that are possible, and others', have happened. */
  ghost function Played(replicas: set<Node>, s: State, steps: seq<Step>, op: Option<nat>, r: Option<nat>): State {
    if steps == [] then s
    else
      var n := |steps| - 1;
      var t := Played(replicas, s, steps[..n], op, r);
      if Happens(replicas, t, steps[n], op, r) then Do(replicas, t, steps[n]) else t
  }

  /** Others act. */
  method Others(c: Cluster, steps: seq<Step>, op: Option<nat>, r: Option<nat>)
    requires c.Valid()
    modifies c
    ensures c.s == Played(c.All(), old(c.s), steps, op, r)
    ensures c.Valid() && Later(c.All(), old(c.s), c.s) && Undisturbed(old(c.s), c.s, op, r)
  {
    ghost var s0 := c.s;
    for i := 0 to |steps|
      invariant c.Valid() && Later(c.All(), s0, c.s) && Undisturbed(s0, c.s, op, r)
      invariant c.s == Played(c.All(), s0, steps[..i], op, r)
    {
      var step := steps[i];
      assert steps[..i + 1][..i] == steps[..i];
      if Enabled(c.All(), c.s, step) && (op.Some? ==> LeavesWrite(step, op.value)) && (r.Some? ==> LeavesRead(step, r.value)) {
        ghost var s := c.s;
        StepIsLater(c.All(), s, step);
        StepLeaves(c.All(), s, step, op, r);
        c.Take(step);
        LaterTransitive(c.All(), s0, s, c.s);
      }
    }
    assert steps[..|steps|] == steps;
  }

  // ---- writes ---------------------------------------------------------------

  /** The write after its first `i` replicas were asked; others may have done anything. */
  ghost predicate AskedSoFar(c: Cluster, op: nat, w: Write, level: Level, outcomes: seq<Outcome>, i: nat)
    requires i <= |c.order| == |outcomes|
    reads c
  {
    && op in c.s.pending
    && c.s.pending[op] == Pending(w, level, c.self, Nodes(c.order[i..]), Ackers(c.order[..i], outcomes[..i]), Nodes(Missing(c.order[..i], outcomes[..i])))
  }

  method AskNextAmid(c: Cluster, op: nat, w: Write, level: Level, outcomes: seq<Outcome>, i: nat, steps: seq<Step>) returns (ok: bool)
    requires c.Valid() && i < |c.order| == |outcomes| && AskedSoFar(c, op, w, level, outcomes, i)
    modifies c
    ensures c.Valid() && ok == outcomes[i].Acked? && AskedSoFar(c, op, w, level, outcomes, i + 1)
  {
    Others(c, steps, Some(op), None);
    var n := c.order[i];
    AckersGrow(c.order, outcomes, i);
    NodesShrink(c.order, i);
    NodesSnoc(Missing(c.order[..i], outcomes[..i]), n);
    assert Ackers(c.order[..i], outcomes[..i]) + {} == Ackers(c.order[..i], outcomes[..i]);
    PendingIssued(c, op);
    ok := c.WriteOneReplica(op, n, outcomes[i]);
  }

  lemma PendingIssued(c: Cluster, op: nat)
    requires c.Valid() && op in c.s.pending
    ensures c.s.pending[op].write in c.s.issued
  {
    ReachableInv(c.All(), c.s);
    assert PendingOk(c.All(), c.s, c.s.pending[op]);
  }

  lemma CountGrows(order: seq<Node>, outcomes: seq<Outcome>, i: nat)
    requires |order| == |outcomes| && i < |order| && Distinct(order)
    ensures |Ackers(order[..i + 1], outcomes[..i + 1])| == |Ackers(order[..i], outcomes[..i])| + if outcomes[i].Acked? then 1 else 0
    ensures Missing(order[..i + 1], outcomes[..i + 1]) == Missing(order[..i], outcomes[..i]) + if outcomes[i].Acked? then [] else [order[i]]
  {
    AckersGrow(order, outcomes, i);
    assert Ackers(order[..i], outcomes[..i]) + {} == Ackers(order[..i], outcomes[..i]);
  }

  method AskAmid(c: Cluster, op: nat, w: Write, level: Level, outcomes: seq<Outcome>, meanwhile: Meanwhile) returns (acks: nat, unreachable: seq<Node>)
    requires c.Valid() && |outcomes| == |c.order| && op in c.s.pending
    requires c.s.pending[op] == Pending(w, level, c.self, c.All(), {}, {})
    modifies c
    ensures c.Valid() && AskedSoFar(c, op, w, level, outcomes, |c.order|)
    ensures acks == |Ackers(c.order, outcomes)| && unreachable == Missing(c.order, outcomes)
  {
    acks, unreachable := 0, [];
    for i := 0 to |c.order|
      invariant c.Valid() && AskedSoFar(c, op, w, level, outcomes, i)
      invariant acks == |Ackers(c.order[..i], outcomes[..i])| && unreachable == Missing(c.order[..i], outcomes[..i])
    {
      CountGrows(c.order, outcomes, i);
      var ok := AskNextAmid(c, op, w, level, outcomes, i, meanwhile(i));
      if ok { acks := acks + 1; } else { unreachable := unreachable + [c.order[i]]; }
    }
    assert c.order[..|c.order|] == c.order && outcomes[..|c.order|] == outcomes;
  }

  method HintAmid(c: Cluster, op: nat, unreachable: seq<Node>, meanwhile: Meanwhile)
    requires c.Valid() && op in c.s.pending && Distinct(unreachable) && c.s.pending[op].unreachable == Nodes(unreachable)
    modifies c
    ensures c.Valid() && op in c.s.pending && c.s.pending[op] == old(c.s).pending[op].(unreachable := {})
  {
    ghost var p0 := c.s.pending[op];
    for i := 0 to |unreachable|
      invariant c.Valid() && op in c.s.pending && c.s.pending[op] == p0.(unreachable := Nodes(unreachable[i..]))
    {
      Others(c, meanwhile(i), Some(op), None);
      NodesShrink(unreachable, i);
      c.Take(Buffer(op, unreachable[i]));
    }
  }

  /** A write with anything else in between: the client still hears success exactly when
      enough replicas acknowledged, and on return every replica holds the write or
      something newer, or a hint for it is pending. */
  method WriteAmid(c: Cluster, op: nat, w: Write, level: Level, outcomes: seq<Outcome>, asking: Meanwhile, hinting: Meanwhile, ending: seq<Step>)
    returns (r: WriteResult)
    requires c.Valid() && op !in c.s.pending && Functional(c.s.issued + {w}) && |outcomes| == |c.order|
    modifies c
    ensures c.Valid() && WriteVerdict(level, c.order, outcomes, r)
    ensures forall n | n in c.order :: Safe(c.s, n, w)
    ensures r.WriteOk? ==> Ack(w, level, Ackers(c.order, outcomes)) in c.s.acked
    ensures forall i | 0 <= i < |c.order| :: c.order[i] in Ackers(c.order, outcomes) <==> outcomes[i].Acked?
  {
    AckersAre(c.order, outcomes);
    if c.order == [] { return NoReplica; }
    c.Begin(op, w, level);
    var acks, unreachable := AskAmid(c, op, w, level, outcomes, asking);
    assert c.order[..|c.order|] == c.order && outcomes[..|c.order|] == outcomes;
    MissingIsComplement(c.order, outcomes);
    HintAmid(c, op, unreachable, hinting);
    Others(c, ending, Some(op), None);
    c.Report(op);
    CountIsLeast(level, |c.order|, acks);
    r := if acks >= Count(level, |c.order|) then WriteOk else WriteQuorum(Count(level, |c.order|), acks);
  }

  // ---- reads ----------------------------------------------------------------

  /** A read in progress whose answers so far are listed. */
  ghost predicate Reading(c: Cluster, r: nat, id: u64, level: Level, before: set<Ack>, up: set<Node>, i: nat, responses: seq<Response>)
    requires i <= |c.order|
    reads c
  {
    && r in c.s.gets && c.s.gets[r].id == id && c.s.gets[r].level == level && c.s.gets[r].before == before
    && Collected(responses, c.s.gets[r].responses) && c.s.gets[r].responses.Keys == Nodes(c.order[..i]) * up
  }

  ghost predicate NotOlder(a: Option<Write>, b: Option<Write>) { b.Some? ==> a.Some? && b.value.hlc.Le(a.value.hlc) }

  /** Each answer is a version its replica held at some moment of the read: no older than
      at the beginning, no newer than now. */
  ghost predicate AnsweredDuring(replicas: set<Node>, s0: State, s: State, id: u64, answers: map<Node, Option<Write>>) {
    && Later(replicas, s0, s)
    && forall n | n in answers :: n in replicas && NotOlder(answers[n], Version(s0.stores[n], id)) && NotOlder(Version(s.stores[n], id), answers[n])
  }

  lemma AnswerAdded(replicas: set<Node>, s0: State, s: State, t: State, id: u64, answers: map<Node, Option<Write>>, n: Node)
    requires AnsweredDuring(replicas, s0, s, id, answers) && n in replicas
    requires t.stores == s.stores && t.acked == s.acked && t.issued == s.issued
    ensures AnsweredDuring(replicas, s0, t, id, answers[n := Version(s.stores[n], id)])
  {}

  lemma StillAnsweredDuring(replicas: set<Node>, s0: State, s: State, t: State, id: u64, answers: map<Node, Option<Write>>)
    requires AnsweredDuring(replicas, s0, s, id, answers) && Later(replicas, s, t)
    ensures AnsweredDuring(replicas, s0, t, id, answers)
  {
    LaterTransitive(replicas, s0, s, t);
  }

  method ReadNextAmid(c: Cluster, ghost s0: State, r: nat, ghost id: u64, ghost level: Level, ghost before: set<Ack>, up: set<Node>, i: nat, responses: seq<Response>, steps: seq<Step>)
    returns (more: seq<Response>)
    requires c.Valid() && i < |c.order| && Reading(c, r, id, level, before, up, i, responses)
    requires AnsweredDuring(c.All(), s0, c.s, id, c.s.gets[r].responses)
    modifies c
    ensures c.Valid() && Reading(c, r, id, level, before, up, i + 1, more)
    ensures AnsweredDuring(c.All(), s0, c.s, id, c.s.gets[r].responses)
  {
    ghost var a := c.s;
    Others(c, steps, None, Some(r));
    StillAnsweredDuring(c.All(), s0, a, c.s, id, c.s.gets[r].responses);
    more := responses;
    var n := c.order[i];
    AnsweredGrows(c.order, i, up);
    if n in up { more := AskForVersion(c, s0, r, n, responses); }
  }

  method AskForVersion(c: Cluster, ghost s0: State, r: nat, n: Node, responses: seq<Response>) returns (more: seq<Response>)
    requires c.Valid() && r in c.s.gets && n in c.All() && n !in c.s.gets[r].responses && Collected(responses, c.s.gets[r].responses)
    requires AnsweredDuring(c.All(), s0, c.s, c.s.gets[r].id, c.s.gets[r].responses)
    modifies c
    ensures c.Valid() && r in c.s.gets && Collected(more, c.s.gets[r].responses)
    ensures c.s.gets[r] == old(c.s).gets[r].(responses := c.s.gets[r].responses)
    ensures c.s.gets[r].responses.Keys == old(c.s).gets[r].responses.Keys + {n}
    ensures AnsweredDuring(c.All(), s0, c.s, c.s.gets[r].id, c.s.gets[r].responses)
  {
    ghost var a, rd := c.s, c.s.gets[r];
    var v := c.ReadOneReplica(r, n);
    CollectedMore(responses, rd.responses, n, v);
    AnswerAdded(c.All(), s0, a, c.s, rd.id, rd.responses, n);
    more := responses + [Response(n, v)];
  }

  lemma AnsweredGrows(order: seq<Node>, i: nat, up: set<Node>)
    requires i < |order| && Distinct(order)
    ensures order[i] !in Nodes(order[..i]) * up
    ensures Nodes(order[..i + 1]) * up == Nodes(order[..i]) * up + if order[i] in up then {order[i]} else {}
    ensures Nodes(order[..i]) * up + {} == Nodes(order[..i]) * up
  {
    assert order[..i + 1] == order[..i] + [order[i]];
    NodesSnoc(order[..i], order[i]);
  }

  /** A Get with anything else in between: it fails exactly when too few replicas answer.
      Otherwise it returns what its answers say (nothing if none has a version or the
      newest is a tombstone, else the newest vector), each answer being current during the
      read, and what it selects covers every write acknowledged, at an overlapping level,
      before it began. */
  method GetAmid(c: Cluster, r: nat, id: u64, level: Level, up: set<Node>, reading: Meanwhile, ending: seq<Step>)
    returns (res: GetResult, win: Option<Write>, ghost answers: map<Node, Option<Write>>)
    requires c.Valid() && r !in c.s.gets
    modifies c
    ensures c.Valid() && GetVerdict(level, |c.order|, |c.All() * up|, res)
    ensures res.Got? ==> answers.Keys == c.All() * up && AnsweredBy(answers, res.value) && IsWinner(answers, win)
    ensures res.Got? ==> AnsweredDuring(c.All(), old(c.s), c.s, id, answers)
    ensures res.Got? ==> c.SeesAcks(old(c.s).acked, id, level, win)
    ensures res.Got? && win.Some? ==> win.value.id == id && win.value in c.s.issued
  {
    if c.order == [] { return NothingToRead, None, map[]; }
    var got;
    got, win, answers := ReadAmid(c, r, id, level, up, reading, ending);
    CountIsLeast(level, |c.order|, got);
    var needed := Count(level, |c.order|);
    res := if got < needed then ReadQuorum(needed, got) else Got(Visible(win));
  }

  method ReadAmid(c: Cluster, r: nat, id: u64, level: Level, up: set<Node>, reading: Meanwhile, ending: seq<Step>)
    returns (got: nat, win: Option<Write>, ghost answers: map<Node, Option<Write>>)
    requires c.Valid() && r !in c.s.gets
    modifies c
    ensures c.Valid() && got == |c.All() * up| && answers.Keys == c.All() * up
    ensures AnsweredBy(answers, Visible(win)) && IsWinner(answers, win) && AnsweredDuring(c.All(), old(c.s), c.s, id, answers)
    ensures got >= Count(level, |c.order|) ==> c.SeesAcks(old(c.s).acked, id, level, win)
    ensures got >= Count(level, |c.order|) && win.Some? ==> win.value.id == id && win.value in c.s.issued
  {
    ghost var s0 := c.s;
    c.BeginRead(r, id, level);
    var responses := CollectAmid(c, s0, r, id, level, c.s.gets[r].before, up, reading);
    assert c.order[..|c.order|] == c.order;
    win := PickWinner(responses);
    JudgeAnswers(c, r, responses, win);
    answers := c.s.gets[r].responses;
    VisibleAnswers(answers, win);
    got := |responses|;
    ghost var a := c.s;
    Others(c, ending, None, Some(r));
    StillAnsweredDuring(c.All(), s0, a, c.s, id, answers);
    c.EndRead(r);
  }

  method CollectAmid(c: Cluster, ghost s0: State, r: nat, ghost id: u64, ghost level: Level, ghost before: set<Ack>, up: set<Node>, reading: Meanwhile) returns (responses: seq<Response>)
    requires c.Valid() && r in c.s.gets && c.s.gets[r] == Read(id, level, before, map[]) && Later(c.All(), s0, c.s)
    modifies c
    ensures c.Valid() && Reading(c, r, id, level, before, up, |c.order|, responses)
    ensures AnsweredDuring(c.All(), s0, c.s, id, c.s.gets[r].responses)
  {
    responses := [];
    assert Nodes(c.order[..0]) * up == {};
    for i := 0 to |c.order|
      invariant c.Valid() && Reading(c, r, id, level, before, up, i, responses)
      invariant AnsweredDuring(c.All(), s0, c.s, id, c.s.gets[r].responses)
    {
      responses := ReadNextAmid(c, s0, r, id, level, before, up, i, responses, reading(i));
    }
  }

  lemma ReadStampsDetermine(c: Cluster, r: nat)
    requires c.Valid() && r in c.s.gets
    ensures StampsDetermine(c.s.gets[r].responses)
  {
    ReachableInv(c.All(), c.s);
    assert ReadOk(c.All(), c.s, c.s.gets[r]);
    IssuedStampsDetermine(c.s.gets[r].responses, c.s.issued, c.s.gets[r].id);
  }

  lemma JudgeAnswers(c: Cluster, r: nat, responses: seq<Response>, win: Option<Write>)
    requires c.Valid() && r in c.s.gets && Collected(responses, c.s.gets[r].responses) && Newest(responses, win)
    ensures |responses| == |c.s.gets[r].responses.Keys|
    ensures IsWinner(c.s.gets[r].responses, win) && StampsDetermine(c.s.gets[r].responses)
    ensures |responses| >= Count(c.s.gets[r].level, |c.order|) ==> c.SeesAcks(c.s.gets[r].before, c.s.gets[r].id, c.s.gets[r].level, win)
    ensures |responses| >= Count(c.s.gets[r].level, |c.order|) && win.Some? ==> win.value in c.s.issued && win.value.id == c.s.gets[r].id
  {
    NewestIsWinner(responses, c.s.gets[r].responses, win);
    ReadStampsDetermine(c, r);
    assert |c.s.gets[r].responses| == |c.s.gets[r].responses.Keys|;
    if |responses| >= Count(c.s.gets[r].level, |c.order|) { c.WinnerSeesAcks(r, win); }
  }

  // ---- shard transfer -------------------------------------------------------

  /** A transfer with live traffic in between: the target ends with everything the source
      streamed and everything it held itself, or newer. */
  method PullAmid(c: Cluster, source: Node, records: seq<Write>, meanwhile: Meanwhile)
    requires c.Valid() && source in c.All() && c.self in c.All() && Elements(records) == c.s.stores[source].Values
    modifies c
    ensures c.Valid() && AtLeast(c.s.stores[c.self], Join(old(c.s).stores[c.self], old(c.s).stores[source]))
  {
    ghost var s0 := c.s;
    StreamedIssued(c, source, records);
    for i := 0 to |records|
      invariant c.Valid() && Later(c.All(), s0, c.s) && (forall j | 0 <= j < |records| :: records[j] in c.s.issued)
      invariant forall j | 0 <= j < i :: Covers(c.s.stores[c.self], records[j])
    {
      PullNextAmid(c, s0, records, i, meanwhile(i));
    }
    JoinCovered(s0.stores[c.self], s0.stores[source], c.s.stores[c.self], records);
  }

  method PullNextAmid(c: Cluster, ghost s0: State, records: seq<Write>, i: nat, steps: seq<Step>)
    requires c.Valid() && i < |records| && c.self in c.All() && Later(c.All(), s0, c.s)
    requires (forall j | 0 <= j < |records| :: records[j] in c.s.issued) && forall j | 0 <= j < i :: Covers(c.s.stores[c.self], records[j])
    modifies c
    ensures c.Valid() && Later(c.All(), s0, c.s)
    ensures (forall j | 0 <= j < |records| :: records[j] in c.s.issued) && forall j | 0 <= j <= i :: Covers(c.s.stores[c.self], records[j])
  {
    ghost var a := c.s;
    Others(c, steps, None, None);
    ghost var b := c.s;
    LaterTransitive(c.All(), s0, a, b);
    StepIsLater(c.All(), b, Deliver(c.self, records[i]));
    ApplyMovesForward(b.stores[c.self], records[i]);
    c.PushTo(c.self, records[i]);
    LaterTransitive(c.All(), s0, b, c.s);
    forall j | 0 <= j < i ensures Covers(c.s.stores[c.self], records[j]) {
      CoversMonotone(a.stores[c.self], b.stores[c.self], records[j]);
      CoversMonotone(b.stores[c.self], c.s.stores[c.self], records[j]);
    }
  }

  lemma StreamedIssued(c: Cluster, source: Node, records: seq<Write>)
    requires c.Valid() && source in c.All() && Elements(records) == c.s.stores[source].Values
    ensures forall j | 0 <= j < |records| :: records[j] in c.s.issued
    ensures Later(c.All(), c.s, c.s) && forall id | id in c.s.stores[source] :: c.s.stores[source][id].id == id
  {
    ReachableInv(c.All(), c.s);
    forall j | 0 <= j < |records| ensures records[j] in c.s.issued { assert records[j] in Elements(records); }
  }

  lemma JoinCovered(target: Store, source: Store, after: Store, records: seq<Write>)
    requires Elements(records) == source.Values && AtLeast(after, target) && forall j | 0 <= j < |records| :: Covers(after, records[j])
    requires forall id | id in source :: source[id].id == id
    ensures AtLeast(after, Join(target, source))
  {
    forall id | id in source ensures Covers(after, source[id]) { assert source[id] in Elements(records); }
  }
}
