/** The coordinator's loops (crates/qv-node/src/router.rs) as executions of the
    replication protocol: every change they make to the cluster is a protocol step,
    so all that holds of runs holds of them. */
module Coordinator {
  import opened Bytes
  import opened Clocks
  import opened Lww
  import opened Replication
  import opened Convergence

  /** What becomes of one write sent to one replica. */
  datatype Outcome = Acked | AppliedUnacked | NotApplied

  datatype WriteResult = WriteOk | NoReplica | WriteQuorum(needed: nat, got: nat)

  /** What the client must hear, from the outcomes alone: an error without replicas,
      success exactly when one, a strict majority or all of them acknowledged, and
      otherwise the two numbers compared. */
  ghost predicate WriteVerdict(level: Level, order: seq<Node>, outcomes: seq<Outcome>, r: WriteResult)
    requires |order| == |outcomes|
  {
    var n, got := |order|, |set i | 0 <= i < |order| && outcomes[i].Acked? :: order[i]|;
    && (r.NoReplica? <==> n == 0)
    && (n > 0 ==> (r.WriteOk? <==> Enough(level, n, got)))
    && (r.WriteQuorum? ==> Needs(level, n, r.needed) && r.got == got)
  }

  /** The hints a write leaves: one for each replica that did not acknowledge, no other. */
  ghost predicate HintsUnacked(order: seq<Node>, outcomes: seq<Outcome>, w: Write, added: seq<Hint>)
    requires |order| == |outcomes|
  {
    && (forall i, j | 0 <= i < j < |added| :: added[i].target != added[j].target)
    && (forall h | h in added :: h.write == w && exists i :: 0 <= i < |order| && order[i] == h.target && !outcomes[i].Acked?)
    && (forall i | 0 <= i < |order| && !outcomes[i].Acked? :: Hint(order[i], w) in added)
  }

  lemma MissingAreHinted(order: seq<Node>, outcomes: seq<Outcome>, w: Write)
    requires |order| == |outcomes| && Distinct(order)
    ensures HintsUnacked(order, outcomes, w, HintsFor(Missing(order, outcomes), w))
  {
    var missing := Missing(order, outcomes);
    var added := HintsFor(missing, w);
    MissingIsComplement(order, outcomes);
    forall h | h in added ensures h.write == w && exists i :: 0 <= i < |order| && order[i] == h.target && !outcomes[i].Acked? {
      var k :| 0 <= k < |added| && added[k] == h;
      assert missing[k] in missing;
      var i :| 0 <= i < |order| && order[i] == missing[k];
    }
    forall i | 0 <= i < |order| && !outcomes[i].Acked? ensures Hint(order[i], w) in added {
      if order[i] in Ackers(order, outcomes) {
        var j :| 0 <= j < |order| && outcomes[j].Acked? && order[j] == order[i];
      }
      assert order[i] in missing;
      var k :| 0 <= k < |missing| && missing[k] == order[i];
      assert added[k] == Hint(order[i], w);
    }
  }

  ghost predicate Distinct(xs: seq<Node>) { forall i, j | 0 <= i < j < |xs| :: xs[i] != xs[j] }

  function Nodes(xs: seq<Node>): set<Node> { set n | n in xs }

  /** The replicas that acknowledged, as a set. */
  function Ackers(order: seq<Node>, outcomes: seq<Outcome>): set<Node>
    requires |order| == |outcomes|
  {
    set i | 0 <= i < |order| && outcomes[i].Acked? :: order[i]
  }

  /** The replicas that did not, in the order they were asked. */
  function Missing(order: seq<Node>, outcomes: seq<Outcome>): seq<Node>
    requires |order| == |outcomes|
  {
    if order == [] then []
    else
      var n := |order| - 1;
      Missing(order[..n], outcomes[..n]) + if outcomes[n].Acked? then [] else [order[n]]
  }

  function HintsFor(targets: seq<Node>, w: Write): seq<Hint> { seq(|targets|, i requires 0 <= i < |targets| => Hint(targets[i], w)) }

  lemma {:induction false} MissingIsComplement(order: seq<Node>, outcomes: seq<Outcome>)
    requires |order| == |outcomes| && Distinct(order)
    ensures Distinct(Missing(order, outcomes))
    ensures forall n :: n in Missing(order, outcomes) <==> n in order && n !in Ackers(order, outcomes)
    decreases |order|
  {
    if order != [] {
      var n := |order| - 1;
      MissingIsComplement(order[..n], outcomes[..n]);
      AckersGrow(order, outcomes, n);
      assert order == order[..n] + [order[n]] && outcomes[..|order|] == outcomes;
      assert order[n] !in order[..n];
    }
  }

  lemma AckersAre(order: seq<Node>, outcomes: seq<Outcome>)
    requires |order| == |outcomes| && Distinct(order)
    ensures forall i | 0 <= i < |order| :: order[i] in Ackers(order, outcomes) <==> outcomes[i].Acked?
  {}

  lemma AckersGrow(order: seq<Node>, outcomes: seq<Outcome>, i: nat)
    requires |order| == |outcomes| && i < |order| && Distinct(order)
    ensures Ackers(order[..i + 1], outcomes[..i + 1]) == Ackers(order[..i], outcomes[..i]) + if outcomes[i].Acked? then {order[i]} else {}
    ensures order[i] !in Ackers(order[..i], outcomes[..i])
    ensures Missing(order[..i + 1], outcomes[..i + 1]) == Missing(order[..i], outcomes[..i]) + if outcomes[i].Acked? then [] else [order[i]]
    ensures i + 1 == |order| ==> order[..i + 1] == order && outcomes[..i + 1] == outcomes
  {
    assert order[..i + 1][..i] == order[..i] && outcomes[..i + 1][..i] == outcomes[..i];
    var a, b := Ackers(order[..i], outcomes[..i]), Ackers(order[..i + 1], outcomes[..i + 1]);
    forall x | x in a ensures x in b {
      var j :| 0 <= j < i && outcomes[..i][j].Acked? && order[..i][j] == x;
      assert outcomes[..i + 1][j].Acked? && order[..i + 1][j] == x;
    }
    if outcomes[i].Acked? { assert outcomes[..i + 1][i].Acked? && order[..i + 1][i] == order[i]; }
  }

  /** The stores after the write went to the first `i` replicas with these outcomes. */
  ghost predicate SentTo(before: map<Node, Store>, after: map<Node, Store>, w: Write, order: seq<Node>, outcomes: seq<Outcome>, i: nat)
    requires |order| == |outcomes| && i <= |order|
  {
    && after.Keys == before.Keys
    && forall j | 0 <= j < |order| && order[j] in before ::
      after[order[j]] == if j >= i || outcomes[j].NotApplied? then before[order[j]] else Apply(before[order[j]], w)
  }

  lemma SentToNext(before: map<Node, Store>, after: map<Node, Store>, w: Write, order: seq<Node>, outcomes: seq<Outcome>, i: nat)
    requires |order| == |outcomes| && i < |order| && Distinct(order) && order[i] in after
    requires SentTo(before, after, w, order, outcomes, i)
    ensures
      var n := order[i];
      SentTo(before, after[n := if outcomes[i].NotApplied? then after[n] else Apply(after[n], w)], w, order, outcomes, i + 1)
  {}

  lemma NodesShrink(xs: seq<Node>, i: nat)
    requires i < |xs| && Distinct(xs)
    ensures Nodes(xs[i..]) - {xs[i]} == Nodes(xs[i + 1..]) && xs[i] in Nodes(xs[i..])
  {}

  lemma NodesSnoc(xs: seq<Node>, n: Node)
    ensures Nodes(xs + [n]) == Nodes(xs) + {n} && Nodes(xs) + {} == Nodes(xs)
  {}

  /** Only one node's hint log changed. */
  ghost predicate SameExceptAt(self: Node, before: map<Node, seq<Hint>>, after: map<Node, seq<Hint>>) {
    && (forall h | h in before && h != self :: h in after && after[h] == before[h])
    && (forall h | h in after && h != self :: h in before)
  }

  // ---- what a Get collects --------------------------------------------------

  datatype Response = Response(node: Node, version: Option<Write>)

  function ReadFrom(stores: map<Node, Store>, id: u64, nodes: set<Node>): map<Node, Option<Write>> {
    map n | n in nodes && n in stores :: Version(stores[n], id)
  }

  /** `responses` lists the map `m`, one entry per key. */
  ghost predicate Collected(responses: seq<Response>, m: map<Node, Option<Write>>) {
    && |responses| == |m|
    && (forall k | 0 <= k < |responses| :: responses[k].node in m && m[responses[k].node] == responses[k].version)
    && (forall n | n in m :: Response(n, m[n]) in responses)
  }

  lemma CollectedMore(responses: seq<Response>, m: map<Node, Option<Write>>, n: Node, v: Option<Write>)
    requires Collected(responses, m) && n !in m
    ensures Collected(responses + [Response(n, v)], m[n := v])
  {}

  lemma ReadFromGrows(stores: map<Node, Store>, id: u64, order: seq<Node>, i: nat, up: set<Node>)
    requires i < |order| && Distinct(order) && order[i] in stores
    ensures
      var m, n := ReadFrom(stores, id, Nodes(order[..i]) * up), order[i];
      && n !in m
      && ReadFrom(stores, id, Nodes(order[..i + 1]) * up) == if n in up then m[n := Version(stores[n], id)] else m
  {}

  /** `win` is a newest version among the responses, if any replica has one. */
  ghost predicate Newest(responses: seq<Response>, win: Option<Write>) {
    match win
    case None => forall k | 0 <= k < |responses| :: responses[k].version.None?
    case Some(x) =>
      && (exists k :: 0 <= k < |responses| && responses[k].version == Some(x))
      && (forall k | 0 <= k < |responses| && responses[k].version.Some? :: responses[k].version.value.hlc.Le(x.hlc))
  }

  /** The last-writer-wins merge of a Get. */
  method PickWinner(responses: seq<Response>) returns (win: Option<Write>)
    ensures Newest(responses, win)
  {
    win := None;
    for i := 0 to |responses|
      invariant Newest(responses[..i], win)
    {
      var v := responses[i].version;
      assert responses[..i + 1] == responses[..i] + [responses[i]];
      assert responses[..i + 1][i] == responses[i];
      if v.Some? && (win.None? || win.value.hlc.Le(v.value.hlc)) {
        win := v;
      } else if win.Some? {
        var k :| 0 <= k < i && responses[..i][k].version == win;
        assert responses[..i + 1][k].version == win;
      }
    }
    assert responses[..|responses|] == responses;
  }

  lemma NewestIsWinner(responses: seq<Response>, m: map<Node, Option<Write>>, win: Option<Write>)
    requires Collected(responses, m) && Newest(responses, win)
    ensures IsWinner(m, win)
  {}

  /** A replica that answered with an older version, or with none, needs repair. */
  predicate Behind(v: Option<Write>, win: Write) { v.None? || v.value.hlc.Lt(win.hlc) }

  method StaleReplicas(responses: seq<Response>, win: Write) returns (stale: seq<Node>)
    ensures forall n :: n in stale <==> exists k :: 0 <= k < |responses| && responses[k].node == n && Behind(responses[k].version, win)
  {
    stale := [];
    for i := 0 to |responses|
      invariant forall n :: n in stale <==> exists k :: 0 <= k < i && responses[k].node == n && Behind(responses[k].version, win)
    {
      if Behind(responses[i].version, win) { stale := stale + [responses[i].node]; }
    }
  }

  datatype GetResult = Got(value: Option<Vector>) | NothingToRead | ReadQuorum(needed: nat, got: nat)

  /** A tombstone reads as absent. */
  function Visible(win: Option<Write>): Option<Vector> {
    if win.Some? && !win.value.tombstone then Some(win.value.vector) else None
  }

  /** No answer is newer than the one of `n`. */
  ghost predicate NewestAt(answers: map<Node, Option<Write>>, n: Node) {
    && n in answers && answers[n].Some?
    && forall m | m in answers && answers[m].Some? :: answers[m].value.hlc.Le(answers[n].value.hlc)
  }

  /** What a Get must return, from the answers alone: nothing exactly when no answer has a
      version or the newest is a tombstone, else the vector of a newest answer. */
  ghost predicate AnsweredBy(answers: map<Node, Option<Write>>, value: Option<Vector>) {
    && (value.None? <==> (forall n | n in answers :: answers[n].None?) || exists n :: NewestAt(answers, n) && answers[n].value.tombstone)
    && (value.Some? ==> exists n :: NewestAt(answers, n) && !answers[n].value.tombstone && answers[n].value.vector == value.value)
  }

  /** What the client must hear about a Get, from the number of answers alone. */
  ghost predicate GetVerdict(level: Level, n: nat, got: nat, res: GetResult) {
    && (res.NothingToRead? <==> n == 0)
    && (n > 0 ==> (res.Got? <==> Enough(level, n, got)))
    && (res.ReadQuorum? ==> Needs(level, n, res.needed) && res.got == got)
  }

  /** Answers of one stamp are one write. */
  ghost predicate StampsDetermine(answers: map<Node, Option<Write>>) {
    forall m, n | m in answers && n in answers && answers[m].Some? && answers[n].Some? && answers[m].value.hlc == answers[n].value.hlc ::
      answers[m] == answers[n]
  }

  lemma VisibleAnswers(answers: map<Node, Option<Write>>, win: Option<Write>)
    requires IsWinner(answers, win) && StampsDetermine(answers)
    ensures AnsweredBy(answers, Visible(win))
  {
    if win.Some? {
      var n :| n in answers && answers[n] == win;
      assert NewestAt(answers, n);
      forall m | NewestAt(answers, m) ensures answers[m] == win { assert answers[m].value.hlc == answers[n].value.hlc; }
    }
  }

  lemma IssuedStampsDetermine(answers: map<Node, Option<Write>>, issued: set<Write>, id: u64)
    requires Functional(issued) && forall n | n in answers && answers[n].Some? :: answers[n].value in issued && answers[n].value.id == id
    ensures StampsDetermine(answers)
  {}

  /** The stores after the winner was pushed to the answering replicas in `delivered`:
      each of them ends with the winner or something newer, no other store changes. */
  ghost predicate Repaired(before: map<Node, Store>, after: map<Node, Store>, win: Write, targets: set<Node>) {
    after.Keys == before.Keys && forall n | n in before :: after[n] == if n in targets then Apply(before[n], win) else before[n]
  }

  lemma RepairedMore(before: map<Node, Store>, after: map<Node, Store>, win: Write, stale: seq<Node>, i: nat, delivered: set<Node>)
    requires i < |stale| && stale[i] in after && Repaired(before, after, win, Nodes(stale[..i]) * delivered)
    ensures
      var n := stale[i];
      Repaired(before, if n in delivered then after[n := Apply(after[n], win)] else after, win, Nodes(stale[..i + 1]) * delivered)
  {}

  lemma Tail<T>(a: seq<T>, b: seq<T>)
    ensures a <= a + b && (a + b)[|a|..] == b
  {}

  lemma SetTwice<K, V>(m: map<K, V>, k: K, a: V, b: V)
    ensures m[k := a][k := b] == m[k := b]
  {}

  lemma SetThenErase<V>(m: map<nat, V>, k: nat, a: V)
    requires k !in m
    ensures m[k := a] - {k} == m
  {}

  // ---- hint replay and shard transfer --------------------------------------

  /** The push of a hint whose target's address is known was answered / took effect. */
  predicate Pushed(h: Hint, o: Outcome, known: set<Node>) { h.target in known && o.Acked? }
  predicate Took(h: Hint, o: Outcome, known: set<Node>) { h.target in known && !o.NotApplied? }

  function Kept(hs: seq<Hint>, os: seq<Outcome>, known: set<Node>): seq<Hint>
    requires |hs| == |os|
  {
    if hs == [] then []
    else
      var n := |hs| - 1;
      Kept(hs[..n], os[..n], known) + if Pushed(hs[n], os[n], known) then [] else [hs[n]]
  }

  /** `kept` is the part of the log at the positions `ps`, in order, and those are exactly
      the hints whose target has no known address or whose push was not answered. */
  ghost predicate KeptAt(hs: seq<Hint>, os: seq<Outcome>, known: set<Node>, ps: seq<nat>, kept: seq<Hint>)
    requires |hs| == |os|
  {
    && |ps| == |kept| && (forall j | 0 <= j < |ps| :: ps[j] < |hs| && kept[j] == hs[ps[j]])
    && (forall i, j | 0 <= i < j < |ps| :: ps[i] < ps[j])
    && (forall i | 0 <= i < |hs| :: i in ps <==> hs[i].target !in known || !os[i].Acked?)
  }

  lemma {:induction false} KeptPositions(hs: seq<Hint>, os: seq<Outcome>, known: set<Node>) returns (ps: seq<nat>)
    requires |hs| == |os|
    ensures KeptAt(hs, os, known, ps, Kept(hs, os, known))
    decreases |hs|
  {
    if hs == [] {
      ps := [];
    } else {
      var n := |hs| - 1;
      var rest := KeptPositions(hs[..n], os[..n], known);
      ps := if hs[n].target in known && os[n].Acked? then rest else rest + [n];
      KeptAtSnoc(hs, os, known, n, rest, Kept(hs[..n], os[..n], known));
      assert Kept(hs[..n], os[..n], known) + [] == Kept(hs[..n], os[..n], known);
    }
  }

  lemma KeptAtSnoc(hs: seq<Hint>, os: seq<Outcome>, known: set<Node>, n: nat, rest: seq<nat>, kept: seq<Hint>)
    requires |hs| == |os| == n + 1 && KeptAt(hs[..n], os[..n], known, rest, kept)
    ensures
      if hs[n].target in known && os[n].Acked? then KeptAt(hs, os, known, rest, kept)
      else KeptAt(hs, os, known, rest + [n], kept + [hs[n]])
  {
    assert forall i | 0 <= i < n :: hs[..n][i] == hs[i] && os[..n][i] == os[i];
  }

  lemma HasMember(ps: seq<nat>)
    ensures ps != [] ==> exists x :: x in ps
  {
    if ps != [] { assert ps[0] in ps; }
  }

  /** Nothing is kept when every hint was answered. */
  lemma AllAnsweredLeavesNone(hs: seq<Hint>, os: seq<Outcome>, known: set<Node>, ps: seq<nat>, kept: seq<Hint>)
    requires |hs| == |os| && KeptAt(hs, os, known, ps, kept)
    requires forall i | 0 <= i < |hs| :: hs[i].target in known && os[i].Acked?
    ensures kept == []
  {
    assert forall i | 0 <= i < |hs| :: i !in ps;
    HasMember(ps);
  }

  /** The hinted writes that took effect at a replica: pushed to a known address and, answered
      or not, applied. */
  function TookEffect(n: Node, hs: seq<Hint>, os: seq<Outcome>, known: set<Node>): set<Write>
    requires |hs| == |os|
  {
    set i | 0 <= i < |hs| && hs[i].target == n && n in known && !os[i].NotApplied? :: hs[i].write
  }

  lemma {:induction false} ArrivedWrites(n: Node, hs: seq<Hint>, os: seq<Outcome>, known: set<Node>)
    requires |hs| == |os|
    ensures Elements(Arrived(n, hs, os, known)) == TookEffect(n, hs, os, known)
    decreases |hs|
  {
    if hs != [] {
      var k := |hs| - 1;
      ArrivedWrites(n, hs[..k], os[..k], known);
      TookMore(n, hs, os, known, k);
      ElementsSnoc(Arrived(n, hs[..k], os[..k], known), hs[k].write);
    }
  }

  lemma TookMore(n: Node, hs: seq<Hint>, os: seq<Outcome>, known: set<Node>, k: nat)
    requires |hs| == |os| == k + 1
    ensures TookEffect(n, hs, os, known) ==
      TookEffect(n, hs[..k], os[..k], known) + if hs[k].target == n && n in known && !os[k].NotApplied? then {hs[k].write} else {}
  {
    var a, b := TookEffect(n, hs[..k], os[..k], known), TookEffect(n, hs, os, known);
    forall x | x in a ensures x in b {
      var i :| 0 <= i < k && hs[..k][i].target == n && n in known && !os[..k][i].NotApplied? && hs[..k][i].write == x;
      assert hs[i].target == n && !os[i].NotApplied?;
    }
    forall x | x in b ensures x in a || (hs[k].target == n && n in known && !os[k].NotApplied? && x == hs[k].write) {
      var i :| 0 <= i < |hs| && hs[i].target == n && n in known && !os[i].NotApplied? && hs[i].write == x;
      if i < k { assert hs[..k][i].target == n && !os[..k][i].NotApplied?; }
    }
  }

  /** Every store is the newest-write map of what it held and what took effect there. */
  ghost predicate HoldsNewest(before: map<Node, Store>, after: map<Node, Store>, hs: seq<Hint>, os: seq<Outcome>, known: set<Node>)
    requires |hs| == |os|
  {
    after.Keys == before.Keys && forall n | n in before :: IsLww(after[n], before[n].Values + TookEffect(n, hs, os, known))
  }

  lemma TriedHoldsNewest(before: map<Node, Store>, after: map<Node, Store>, hs: seq<Hint>, os: seq<Outcome>, known: set<Node>)
    requires |hs| == |os| && Tried(before, after, hs, os, known, |hs|)
    requires forall n, id | n in before && id in before[n] :: before[n][id].id == id
    ensures HoldsNewest(before, after, hs, os, known)
  {
    assert hs[..|hs|] == hs && os[..|hs|] == os;
    forall n | n in before ensures IsLww(after[n], before[n].Values + TookEffect(n, hs, os, known)) {
      StoreIsLwwOfRecords(before[n]);
      ApplyAllIsLww(before[n], before[n].Values, Arrived(n, hs, os, known));
      ArrivedWrites(n, hs, os, known);
    }
  }

  /** The hinted writes that took effect at `target`, in order. */
  function Arrived(target: Node, hs: seq<Hint>, os: seq<Outcome>, known: set<Node>): seq<Write>
    requires |hs| == |os|
  {
    if hs == [] then []
    else
      var n := |hs| - 1;
      Arrived(target, hs[..n], os[..n], known) + if hs[n].target == target && Took(hs[n], os[n], known) then [hs[n].write] else []
  }

  /** Every replica has applied what arrived of the first `i` hints of the log. */
  ghost predicate Tried(before: map<Node, Store>, after: map<Node, Store>, hs: seq<Hint>, os: seq<Outcome>, known: set<Node>, i: nat)
    requires i <= |hs| == |os|
  {
    after.Keys == before.Keys && forall n | n in before :: after[n] == ApplyAll(before[n], Arrived(n, hs[..i], os[..i], known))
  }

  /** Answered pushes among the first `i` hints have landed. */
  ghost predicate Landed(stores: map<Node, Store>, hs: seq<Hint>, os: seq<Outcome>, known: set<Node>, i: nat)
    requires i <= |hs| == |os|
  {
    forall j | 0 <= j < i && Pushed(hs[j], os[j], known) && hs[j].target in stores :: Covers(stores[hs[j].target], hs[j].write)
  }

  function AfterPush(stores: map<Node, Store>, h: Hint, o: Outcome, known: set<Node>): map<Node, Store>
    requires h.target in stores
  {
    if Took(h, o, known) then stores[h.target := Apply(stores[h.target], h.write)] else stores
  }

  lemma KeptNext(hs: seq<Hint>, os: seq<Outcome>, known: set<Node>, i: nat)
    requires i < |hs| == |os|
    ensures Kept(hs[..i + 1], os[..i + 1], known) == Kept(hs[..i], os[..i], known) + if Pushed(hs[i], os[i], known) then [] else [hs[i]]
  {
    assert hs[..i + 1][..i] == hs[..i] && os[..i + 1][..i] == os[..i];
  }

  lemma ArrivedNext(target: Node, before: Store, hs: seq<Hint>, os: seq<Outcome>, known: set<Node>, i: nat)
    requires i < |hs| == |os|
    ensures
      var st := ApplyAll(before, Arrived(target, hs[..i], os[..i], known));
      ApplyAll(before, Arrived(target, hs[..i + 1], os[..i + 1], known)) ==
      if hs[i].target == target && Took(hs[i], os[i], known) then Apply(st, hs[i].write) else st
  {
    ArrivedSnoc(target, hs, os, known, i);
    ApplyAllSnoc(before, Arrived(target, hs[..i], os[..i], known), hs[i].write);
  }

  lemma ArrivedSnoc(target: Node, hs: seq<Hint>, os: seq<Outcome>, known: set<Node>, i: nat)
    requires i < |hs| == |os|
    ensures
      var ws := Arrived(target, hs[..i], os[..i], known);
      Arrived(target, hs[..i + 1], os[..i + 1], known) == if hs[i].target == target && Took(hs[i], os[i], known) then ws + [hs[i].write] else ws
  {
    assert hs[..i + 1][..i] == hs[..i] && os[..i + 1][..i] == os[..i];
  }

  lemma ApplyAllSnoc(st: Store, ws: seq<Write>, w: Write)
    ensures ApplyAll(st, ws + [w]) == Apply(ApplyAll(st, ws), w)
  {
    assert (ws + [w])[..|ws|] == ws;
  }

  lemma LandedNext(stores: map<Node, Store>, hs: seq<Hint>, os: seq<Outcome>, known: set<Node>, i: nat)
    requires i < |hs| == |os| && hs[i].target in stores && Landed(stores, hs, os, known, i)
    ensures Landed(AfterPush(stores, hs[i], os[i], known), hs, os, known, i + 1)
  {}

  lemma TriedNext(before: map<Node, Store>, after: map<Node, Store>, hs: seq<Hint>, os: seq<Outcome>, known: set<Node>, i: nat)
    requires i < |hs| == |os| && hs[i].target in after && Tried(before, after, hs, os, known, i)
    ensures Tried(before, AfterPush(after, hs[i], os[i], known), hs, os, known, i + 1)
  {
    var next := AfterPush(after, hs[i], os[i], known);
    forall n | n in before ensures next[n] == ApplyAll(before[n], Arrived(n, hs[..i + 1], os[..i + 1], known)) {
      ArrivedNext(n, before[n], hs, os, known, i);
    }
  }

  /** Replaying hints whose pushes have all landed moves no store and keeps the rest. */
  lemma {:induction false} ReplayLanded(stores: map<Node, Store>, hs: seq<Hint>, os: seq<Outcome>, known: set<Node>, ok: seq<bool>)
    requires |hs| == |os| == |ok| && (forall i | 0 <= i < |hs| :: hs[i].target in stores && ok[i] == Pushed(hs[i], os[i], known))
    requires forall i | 0 <= i < |hs| && ok[i] :: Covers(stores[hs[i].target], hs[i].write)
    ensures PushHints(stores, hs, ok) == (stores, Kept(hs, os, known))
    decreases |hs|
  {
    if hs != [] {
      var n := |hs| - 1;
      ReplayLanded(stores, hs[..n], os[..n], known, ok[..n]);
      var keep := Kept(hs[..n], os[..n], known);
      assert stores[hs[n].target := stores[hs[n].target]] == stores && keep + [] == keep;
    }
  }

  /** Ids for which the source holds something the target lacks or holds older. */
  function NewerIds(target: Store, source: Store): set<u64> { set id | id in source && !IsStale(target, source[id]) }

  /** A shard's records, one per id in any order. */
  ghost predicate Lists(records: seq<Write>, st: Store) {
    && (forall i, j | 0 <= i < j < |records| :: records[i].id != records[j].id)
    && Elements(records) == st.Values
  }

  function Won(target: Store, records: seq<Write>): set<u64> {
    set i | 0 <= i < |records| && !IsStale(target, records[i]) :: records[i].id
  }

  lemma {:induction false} OtherIdsUntouched(st: Store, ws: seq<Write>, id: u64)
    requires forall i | 0 <= i < |ws| :: ws[i].id != id
    ensures Version(ApplyAll(st, ws), id) == Version(st, id)
    decreases |ws|
  {
    if ws != [] { OtherIdsUntouched(st, ws[..|ws| - 1], id); }
  }

  /** Whether a record wins is decided by what the target held before the transfer. */
  lemma WonNext(target: Store, records: seq<Write>, i: nat)
    requires i < |records| && forall j, k | 0 <= j < k < |records| :: records[j].id != records[k].id
    ensures IsStale(ApplyAll(target, records[..i]), records[i]) == IsStale(target, records[i])
    ensures ApplyAll(target, records[..i + 1]) == Apply(ApplyAll(target, records[..i]), records[i])
    ensures |Won(target, records[..i + 1])| == |Won(target, records[..i])| + if IsStale(target, records[i]) then 0 else 1
  {
    OtherIdsUntouched(target, records[..i], records[i].id);
    var st := ApplyAll(target, records[..i]);
    assert Version(st, records[i].id) == Version(target, records[i].id);
    assert records[..i + 1][..i] == records[..i];
    WonSet(target, records, i);
  }

  lemma WonSet(target: Store, records: seq<Write>, i: nat)
    requires i < |records| && forall j, k | 0 <= j < k < |records| :: records[j].id != records[k].id
    ensures Won(target, records[..i + 1]) == Won(target, records[..i]) + if IsStale(target, records[i]) then {} else {records[i].id}
    ensures records[i].id !in Won(target, records[..i])
  {}

  /** The whole transfer: the target joins the source ... */
  lemma TransferIsJoin(target: Store, source: Store, records: seq<Write>)
    requires Elements(records) == source.Values && Functional(target.Values + source.Values)
    requires (forall id | id in target :: target[id].id == id) && (forall id | id in source :: source[id].id == id)
    ensures ApplyAll(target, records) == Join(target, source)
  {
    StoreIsLwwOfRecords(target);
    StoreIsLwwOfRecords(source);
    ApplyAllIsLww(target, target.Values, records);
    JoinIsLww(target, source, target.Values, source.Values);
    LwwUnique(ApplyAll(target, records), Join(target, source), target.Values + source.Values);
  }

  /** ... and counts exactly the ids for which the source was ahead. */
  lemma WonIsNewer(target: Store, source: Store, records: seq<Write>)
    requires Elements(records) == source.Values && forall id | id in source :: source[id].id == id
    ensures Won(target, records) == NewerIds(target, source)
  {
    forall id | id in NewerIds(target, source) ensures id in Won(target, records) {
      assert source[id] in Elements(records);
      var i :| 0 <= i < |records| && records[i] == source[id];
    }
    forall id | id in Won(target, records) ensures id in NewerIds(target, source) {
      var i :| 0 <= i < |records| && !IsStale(target, records[i]) && records[i].id == id;
      assert records[i] in Elements(records);
    }
  }

  /** The replicas of one shard as a coordinating node reaches them. */
  class Cluster {
    const order: seq<Node>
    const self: Node
    var s: State

    function All(): set<Node> { Nodes(order) }

    ghost predicate Valid()
      reads this
    {
      Distinct(order) && Reachable(All(), s) && s.stores.Keys == All() && HintsOk(All(), s)
    }

    constructor (order: seq<Node>, self: Node)
      requires Distinct(order)
      ensures this.order == order && this.self == self && Valid() && s == Start(All())
    {
      this.order, this.self, this.s := order, self, Start(Nodes(order));
      new;
      StartReachable(All());
    }

    /** One protocol step. */
    method Take(step: Step)
      requires Valid() && Enabled(All(), s, step)
      modifies this
      ensures Valid() && s == Do(All(), old(s), step)
    {
      ReachableStep(All(), s, step);
      s := Do(All(), s, step);
      ReachableInv(All(), s);
    }

    /** Ask one replica to apply the pending write. */
    method WriteOneReplica(op: nat, n: Node, outcome: Outcome) returns (ok: bool)
      requires Valid() && op in s.pending && n in s.pending[op].todo && n in All() && s.pending[op].write in s.issued
      modifies this
      ensures Valid() && ok == outcome.Acked?
      ensures
        var p := old(s).pending[op];
        s == old(s).(
          stores := old(s).stores[n := if outcome.NotApplied? then old(s).stores[n] else Apply(old(s).stores[n], p.write)],
          pending := old(s).pending[op := p.(
            todo := p.todo - {n},
            ackers := p.ackers + if ok then {n} else {},
            unreachable := p.unreachable + if ok then {} else {n})])
    {
      ghost var p := s.pending[op];
      assert p.ackers + {} == p.ackers && p.unreachable + {} == p.unreachable && s.stores[n := s.stores[n]] == s.stores;
      match outcome {
        case Acked => Take(Answer(op, n));
        case AppliedUnacked =>
          Take(Deliver(n, s.pending[op].write));
          Take(Fail(op, n));
        case NotApplied => Take(Fail(op, n));
      }
      ok := outcome.Acked?;
    }

    /** Ask every replica in turn, counting acknowledgements and remembering the rest. */
    method AskReplicas(op: nat, outcomes: seq<Outcome>) returns (acks: nat, unreachable: seq<Node>)
      requires Valid() && |outcomes| == |order|
      requires op in s.pending && s.pending[op].write in s.issued
      requires s.pending[op] == Pending(s.pending[op].write, s.pending[op].level, self, All(), {}, {})
      modifies this
      ensures Valid() && acks == |Ackers(order, outcomes)| && unreachable == Missing(order, outcomes)
      ensures op in s.pending && s == old(s).(stores := s.stores, pending := old(s).pending[op := s.pending[op]])
      ensures s.pending[op] == old(s).pending[op].(todo := {}, ackers := Ackers(order, outcomes), unreachable := Nodes(unreachable))
      ensures SentTo(old(s).stores, s.stores, old(s).pending[op].write, order, outcomes, |order|)
    {
      acks, unreachable := 0, [];
      ghost var s0 := s;
      for i := 0 to |order|
        invariant Valid() && acks == |Ackers(order[..i], outcomes[..i])| && unreachable == Missing(order[..i], outcomes[..i])
        invariant op in s0.pending && Asked(s0, op, outcomes, i)
      {
        AckersGrow(order, outcomes, i);
        var ok := AskNext(s0, op, outcomes, i);
        if ok { acks := acks + 1; } else { unreachable := unreachable + [order[i]]; }
      }
      assert order[..|order|] == order && outcomes[..|order|] == outcomes;
    }

    /** The state once the first `i` replicas have been asked. */
    ghost predicate Asked(s0: State, op: nat, outcomes: seq<Outcome>, i: nat)
      requires op in s0.pending && i <= |order| == |outcomes|
      reads this
    {
      && op in s.pending && s == s0.(stores := s.stores, pending := s0.pending[op := s.pending[op]])
      && s.pending[op] == s0.pending[op].(todo := Nodes(order[i..]), ackers := Ackers(order[..i], outcomes[..i]),
                                          unreachable := Nodes(Missing(order[..i], outcomes[..i])))
      && SentTo(s0.stores, s.stores, s0.pending[op].write, order, outcomes, i)
    }

    method AskNext(ghost s0: State, op: nat, outcomes: seq<Outcome>, i: nat) returns (ok: bool)
      requires Valid() && i < |order| == |outcomes| && op in s0.pending && s0.pending[op].write in s0.issued && Asked(s0, op, outcomes, i)
      modifies this
      ensures Valid() && ok == outcomes[i].Acked? && Asked(s0, op, outcomes, i + 1)
    {
      var n := order[i];
      AckersGrow(order, outcomes, i);
      NodesShrink(order, i);
      SentToNext(s0.stores, s.stores, s0.pending[op].write, order, outcomes, i);
      NodesSnoc(Missing(order[..i], outcomes[..i]), n);
      ghost var p := s.pending[op];
      ok := WriteOneReplica(op, n, outcomes[i]);
      SetTwice(s0.pending, op, p, s.pending[op]);
    }

    /** Buffer one hint per unreachable replica in this node's log. */
    method BufferHints(op: nat, unreachable: seq<Node>)
      requires Valid() && op in s.pending && s.pending[op].coord == self && Distinct(unreachable)
      requires s.pending[op].unreachable == Nodes(unreachable)
      modifies this
      ensures Valid() && op in s.pending && s == old(s).(hints := s.hints, pending := old(s).pending[op := s.pending[op]])
      ensures s.pending[op] == old(s).pending[op].(unreachable := {})
      ensures HintsAt(s, self) == HintsAt(old(s), self) + HintsFor(unreachable, s.pending[op].write)
      ensures SameExceptAt(self, old(s).hints, s.hints)
    {
      ghost var p0 := s.pending[op];
      for i := 0 to |unreachable|
        invariant Valid() && op in s.pending && s == old(s).(hints := s.hints, pending := old(s).pending[op := s.pending[op]])
        invariant s.pending[op] == p0.(unreachable := Nodes(unreachable[i..]))
        invariant HintsAt(s, self) == HintsAt(old(s), self) + HintsFor(unreachable[..i], p0.write)
        invariant SameExceptAt(self, old(s).hints, s.hints)
      {
        NodesShrink(unreachable, i);
        assert HintsFor(unreachable[..i + 1], p0.write) == HintsFor(unreachable[..i], p0.write) + [Hint(unreachable[i], p0.write)];
        ghost var p := s.pending[op];
        Take(Buffer(op, unreachable[i]));
        SetTwice(old(s).pending, op, p, s.pending[op]);
      }
      assert unreachable[..|unreachable|] == unreachable;
    }

    /** Send a pending write to every replica, then hint those that did not answer. */
    method SendAndHint(op: nat, outcomes: seq<Outcome>) returns (acks: nat)
      requires Valid() && |outcomes| == |order|
      requires op in s.pending && s.pending[op].write in s.issued
      requires s.pending[op] == Pending(s.pending[op].write, s.pending[op].level, self, All(), {}, {})
      modifies this
      ensures Valid() && acks == |Ackers(order, outcomes)|
      ensures op in s.pending && s == old(s).(stores := s.stores, hints := s.hints, pending := old(s).pending[op := s.pending[op]])
      ensures s.pending[op] == old(s).pending[op].(todo := {}, ackers := Ackers(order, outcomes))
      ensures SentTo(old(s).stores, s.stores, old(s).pending[op].write, order, outcomes, |order|)
      ensures HintsAt(s, self) == HintsAt(old(s), self) + HintsFor(Missing(order, outcomes), s.pending[op].write)
      ensures SameExceptAt(self, old(s).hints, s.hints)
    {
      var unreachable;
      ghost var before := s.pending;
      acks, unreachable := AskReplicas(op, outcomes);
      MissingIsComplement(order, outcomes);
      ghost var p := s.pending[op];
      BufferHints(op, unreachable);
      SetTwice(before, op, p, s.pending[op]);
    }

    method Begin(op: nat, w: Write, level: Level)
      requires Valid() && op !in s.pending && Functional(s.issued + {w}) && order != []
      modifies this
      ensures Valid() && s == old(s).(issued := old(s).issued + {w}, pending := old(s).pending[op := Pending(w, level, self, All(), {}, {})])
    {
      assert order[0] in All();
      Take(Issue(op, self, w, level));
    }

    /** Close a settled operation: its write is safe at every replica from here on. */
    method Report(op: nat)
      requires Valid() && op in s.pending && s.pending[op].todo == {} && s.pending[op].unreachable == {}
      modifies this
      ensures Valid() && s == old(s).(pending := old(s).pending - {op}, acked := s.acked)
      ensures
        var p := old(s).pending[op];
        && s.acked == old(s).acked + (if |p.ackers| >= Count(p.level, |order|) then {Ack(p.write, p.level, p.ackers)} else {})
        && forall n | n in order :: Safe(s, n, p.write)
    {
      DistinctSize(order);
      SettledSafe(op);
      ghost var t, w := s, s.pending[op].write;
      assert s.acked + {} == s.acked;
      Take(Finish(op));
      assert forall n | n in order && Safe(t, n, w) :: Safe(s, n, w);
    }

    /** Replicate one stamped write: acknowledge it when enough replicas did, hint the
        others. Afterwards every replica holds the write or something newer, or a
        hint for it is pending, whether or not the client gets an error. */
    method ReplicateWrite(op: nat, w: Write, level: Level, outcomes: seq<Outcome>) returns (r: WriteResult)
      requires Valid() && op !in s.pending && Functional(s.issued + {w}) && |outcomes| == |order|
      modifies this
      ensures Valid()
      ensures WriteVerdict(level, order, outcomes, r)
      ensures r.NoReplica? ==> s == old(s)
      ensures s.pending == old(s).pending && SentTo(old(s).stores, s.stores, w, order, outcomes, |order|)
      ensures HintsAt(old(s), self) <= HintsAt(s, self)
      ensures order != [] ==> HintsUnacked(order, outcomes, w, HintsAt(s, self)[|HintsAt(old(s), self)|..])
      ensures SameExceptAt(self, old(s).hints, s.hints)
      ensures forall n | n in order :: Safe(s, n, w)
      ensures s.acked == old(s).acked + (if r.WriteOk? then {Ack(w, level, Ackers(order, outcomes))} else {})
      ensures forall i | 0 <= i < |order| :: order[i] in Ackers(order, outcomes) <==> outcomes[i].Acked?
    {
      AckersAre(order, outcomes);
      if order == [] {
        assert s.acked + {} == s.acked;
        return NoReplica;
      }
      ghost var log := HintsAt(s, self);
      var acks := SendAll(op, w, level, outcomes);
      CountIsLeast(level, |order|, acks);
      MissingAreHinted(order, outcomes, w);
      Tail(log, HintsFor(Missing(order, outcomes), w));
      var needed := Count(level, |order|);
      r := if acks >= needed then WriteOk else WriteQuorum(needed, acks);
    }

    /** The write from its stamp to the report. */
    method SendAll(op: nat, w: Write, level: Level, outcomes: seq<Outcome>) returns (acks: nat)
      requires Valid() && op !in s.pending && Functional(s.issued + {w}) && |outcomes| == |order| && order != []
      modifies this
      ensures Valid() && acks == |Ackers(order, outcomes)|
      ensures s.pending == old(s).pending && SentTo(old(s).stores, s.stores, w, order, outcomes, |order|)
      ensures HintsAt(s, self) == HintsAt(old(s), self) + HintsFor(Missing(order, outcomes), w)
      ensures SameExceptAt(self, old(s).hints, s.hints)
      ensures forall n | n in order :: Safe(s, n, w)
      ensures s.acked == old(s).acked + (if acks >= Count(level, |order|) then {Ack(w, level, Ackers(order, outcomes))} else {})
    {
      ghost var pending := s.pending;
      Begin(op, w, level);
      ghost var p := s.pending[op];
      acks := SendAndHint(op, outcomes);
      SetTwice(pending, op, p, s.pending[op]);
      SetThenErase(pending, op, s.pending[op]);
      Report(op);
    }

    /** Every replica answered or was hinted, so the write is safe at each. */
    lemma SettledSafe(op: nat)
      requires Valid() && op in s.pending && s.pending[op].todo == {} && s.pending[op].unreachable == {}
      ensures forall n | n in order :: Safe(s, n, s.pending[op].write)
    {
      ReachableInv(All(), s);
    }

    // ---- Get -----------------------------------------------------------------

    method ReadOneReplica(r: nat, n: Node) returns (v: Option<Write>)
      requires Valid() && r in s.gets && n in All() && n !in s.gets[r].responses
      modifies this
      ensures Valid() && v == Version(s.stores[n], old(s).gets[r].id)
      ensures var rd := old(s).gets[r]; s == old(s).(gets := old(s).gets[r := rd.(responses := rd.responses[n := v])])
    {
      v := Version(s.stores[n], s.gets[r].id);
      Take(ReadOne(r, n));
    }

    /** The read in progress once the first `i` replicas were asked. */
    ghost predicate ReadSoFar(s0: State, r: nat, up: set<Node>, i: nat, responses: seq<Response>)
      requires r in s0.gets && i <= |order|
      reads this
    {
      var rd := s0.gets[r];
      var m := ReadFrom(s0.stores, rd.id, Nodes(order[..i]) * up);
      s == s0.(gets := s0.gets[r := rd.(responses := m)]) && Collected(responses, m)
    }

    method ReadNext(ghost s0: State, r: nat, up: set<Node>, i: nat, responses: seq<Response>) returns (more: seq<Response>)
      requires Valid() && i < |order| && r in s0.gets && ReadSoFar(s0, r, up, i, responses)
      modifies this
      ensures Valid() && ReadSoFar(s0, r, up, i + 1, more)
    {
      more := responses;
      var n := order[i];
      ReadFromGrows(s0.stores, s0.gets[r].id, order, i, up);
      if n in up {
        ghost var rd := s.gets[r];
        CollectedMore(responses, rd.responses, n, Version(s.stores[n], rd.id));
        var v := ReadOneReplica(r, n);
        SetTwice(s0.gets, r, rd, s.gets[r]);
        more := responses + [Response(n, v)];
      }
    }

    /** Read every replica that answers. */
    method ReadReplicas(r: nat, up: set<Node>) returns (responses: seq<Response>)
      requires Valid() && r in s.gets && s.gets[r].responses == map[]
      modifies this
      ensures Valid() && ReadSoFar(old(s), r, up, |order|, responses)
    {
      responses := [];
      ghost var s0 := s;
      assert s0.gets[r := s0.gets[r]] == s0.gets && ReadFrom(s0.stores, s0.gets[r].id, Nodes(order[..0]) * up) == map[];
      for i := 0 to |order|
        invariant Valid() && r in s0.gets && ReadSoFar(s0, r, up, i, responses)
      {
        responses := ReadNext(s0, r, up, i, responses);
      }
    }

    method PushTo(n: Node, w: Write)
      requires Valid() && n in All() && w in s.issued
      modifies this
      ensures Valid() && n in old(s).stores && s == old(s).(stores := old(s).stores[n := Apply(old(s).stores[n], w)])
    {
      Take(Deliver(n, w));
    }

    /** Push the winner to the stale replicas that the push reaches. */
    method ReadRepair(stale: seq<Node>, win: Write, delivered: set<Node>)
      requires Valid() && win in s.issued && forall n | n in stale :: n in All()
      modifies this
      ensures Valid() && s == old(s).(stores := s.stores)
      ensures Repaired(old(s).stores, s.stores, win, Nodes(stale) * delivered)
    {
      ghost var s0 := s;
      for i := 0 to |stale|
        invariant Valid() && s == s0.(stores := s.stores)
        invariant Repaired(s0.stores, s.stores, win, Nodes(stale[..i]) * delivered)
      {
        var n := stale[i];
        RepairedMore(s0.stores, s.stores, win, stale, i, delivered);
        if n in delivered { PushTo(n, win); }
      }
      assert stale[..|stale|] == stale;
    }

    method BeginRead(r: nat, id: u64, level: Level)
      requires Valid() && r !in s.gets
      modifies this
      ensures Valid() && s == old(s).(gets := old(s).gets[r := Read(id, level, old(s).acked, map[])])
    {
      Take(ReadBegin(r, id, level));
    }

    method EndRead(r: nat)
      requires Valid() && r in s.gets
      modifies this
      ensures Valid() && s == old(s).(gets := old(s).gets - {r})
    {
      Take(ReadEnd(r));
    }

    /** The winner covers every write acknowledged before the read at an overlapping level. */
    ghost predicate SeesAcks(acked: set<Ack>, id: u64, level: Level, win: Option<Write>) {
      forall a | a in acked && a.write.id == id && Overlap(a.level, level, |order|) :: win.Some? && a.write.hlc.Le(win.value.hlc)
    }

    lemma WinnerSeesAcks(r: nat, win: Option<Write>)
      requires Valid() && r in s.gets && IsWinner(s.gets[r].responses, win)
      requires |s.gets[r].responses| >= Count(s.gets[r].level, |order|)
      ensures SeesAcks(s.gets[r].before, s.gets[r].id, s.gets[r].level, win)
      ensures win.Some? ==> win.value in s.issued && win.value.id == s.gets[r].id
    {
      ReachableInv(All(), s);
      DistinctSize(order);
      var rd := s.gets[r];
      assert ReadOk(All(), s, rd);
      forall a | a in rd.before && a.write.id == rd.id && Overlap(a.level, rd.level, |order|)
        ensures win.Some? && a.write.hlc.Le(win.value.hlc)
      {
        QuorumSeesAck(All(), s, rd, a, win);
      }
    }

    lemma AnswersIssued(id: u64, up: set<Node>)
      requires Valid()
      ensures StampsDetermine(ReadFrom(s.stores, id, All() * up))
    {
      ReachableInv(All(), s);
      IssuedStampsDetermine(ReadFrom(s.stores, id, All() * up), s.issued, id);
    }

    /** The part of a Get before repair: the winner among the answers, if they suffice. */
    method ReadWinner(r: nat, id: u64, level: Level, up: set<Node>) returns (responses: seq<Response>, win: Option<Write>)
      requires Valid() && r !in s.gets
      modifies this
      ensures Valid() && s == old(s)
      ensures Collected(responses, ReadFrom(s.stores, id, All() * up)) && IsWinner(ReadFrom(s.stores, id, All() * up), win)
      ensures |responses| >= Count(level, |order|) ==> SeesAcks(s.acked, id, level, win)
      ensures |responses| >= Count(level, |order|) && win.Some? ==> win.value in s.issued && win.value.id == id
      ensures StampsDetermine(ReadFrom(s.stores, id, All() * up))
    {
      AnswersIssued(id, up);
      ghost var gets := s.gets;
      BeginRead(r, id, level);
      ghost var rd := s.gets[r];
      responses := ReadReplicas(r, up);
      assert order[..|order|] == order;
      win := PickWinner(responses);
      NewestIsWinner(responses, s.gets[r].responses, win);
      if |responses| >= Count(level, |order|) { WinnerSeesAcks(r, win); }
      SetTwice(gets, r, rd, s.gets[r]);
      SetThenErase(gets, r, s.gets[r]);
      EndRead(r);
    }

    /** A Get: fails when too few replicas answer, else returns the newest version
        (nothing for a tombstone), which covers every write acknowledged earlier at an
        overlapping level, and repairs the answering replicas that were behind. */
    method CoordinateGet(r: nat, id: u64, level: Level, up: set<Node>, delivered: set<Node>) returns (res: GetResult, win: Option<Write>)
      requires Valid() && r !in s.gets
      modifies this
      ensures Valid() && s == old(s).(stores := s.stores)
      ensures GetVerdict(level, |order|, |All() * up|, res)
      ensures res.Got? ==> AnsweredBy(ReadFrom(old(s).stores, id, All() * up), res.value)
      ensures IsWinner(ReadFrom(old(s).stores, id, All() * up), win)
      ensures res.Got? ==> SeesAcks(old(s).acked, id, level, win)
      ensures !res.Got? || win.None? ==> s == old(s)
      ensures res.Got? && win.Some? ==> win.value.id == id && Repaired(old(s).stores, s.stores, win.value, All() * up * delivered)
    {
      if order == [] {
        return NothingToRead, None;
      }
      var responses;
      responses, win := ReadWinner(r, id, level, up);
      AnswerCount(s.stores, id, All() * up);
      CountIsLeast(level, |order|, |responses|);
      VisibleAnswers(ReadFrom(s.stores, id, All() * up), win);
      var needed := Count(level, |order|);
      if |responses| < needed { return ReadQuorum(needed, |responses|), win; }
      res := Got(Visible(win));
      if win.Some? {
        RepairAnswered(responses, win.value, All() * up, delivered);
      }
    }

    /** Determine who is behind and push to them. */
    method RepairAnswered(responses: seq<Response>, win: Write, ghost answered: set<Node>, delivered: set<Node>)
      requires Valid() && win in s.issued && answered <= All() && Collected(responses, ReadFrom(s.stores, win.id, answered))
      modifies this
      ensures Valid() && s == old(s).(stores := s.stores)
      ensures Repaired(old(s).stores, s.stores, win, answered * delivered)
    {
      var stale := StaleReplicas(responses, win);
      ghost var before := s.stores;
      assert forall n | n in stale :: n in answered;
      ReadRepair(stale, win, delivered);
      RepairCoversAll(before, s.stores, responses, win, stale, answered, delivered);
    }

    // ---- hint replay ---------------------------------------------------------

    /** One undisturbed pass over this node's hint log. Hints for unknown or silent
        targets stay, in order; answered ones go, and what arrived was applied. */
    method ReplayHints(known: set<Node>, outcomes: seq<Outcome>) returns (replayed: nat, ghost positions: seq<nat>)
      requires Valid() && |outcomes| == |HintsAt(s, self)|
      modifies this
      ensures Valid() && s == old(s).(stores := s.stores, hints := s.hints)
      ensures KeptAt(HintsAt(old(s), self), outcomes, known, positions, HintsAt(s, self)) && SameExceptAt(self, old(s).hints, s.hints)
      ensures replayed + |positions| == |HintsAt(old(s), self)|
      ensures HoldsNewest(old(s).stores, s.stores, HintsAt(old(s), self), outcomes, known)
      ensures (forall i | 0 <= i < |outcomes| :: HintsAt(old(s), self)[i].target in known && outcomes[i].Acked?) ==>
                HintsAt(s, self) == [] && replayed == |outcomes|
      ensures HintsAt(s, self) == Kept(HintsAt(old(s), self), outcomes, known)
    {
      ghost var hs, before := HintsAt(s, self), s.stores;
      positions := KeptPositions(hs, outcomes, known);
      StoresKeyed();
      replayed := ReplayPass(known, outcomes);
      TriedHoldsNewest(before, s.stores, hs, outcomes, known);
      if forall i | 0 <= i < |hs| :: hs[i].target in known && outcomes[i].Acked? {
        AllAnsweredLeavesNone(hs, outcomes, known, positions, HintsAt(s, self));
      }
    }

    /** The pass itself: an empty log is left alone, else push, then rewrite. */
    method ReplayPass(known: set<Node>, outcomes: seq<Outcome>) returns (replayed: nat)
      requires Valid() && |outcomes| == |HintsAt(s, self)|
      modifies this
      ensures Valid() && s == old(s).(stores := s.stores, hints := s.hints)
      ensures HintsAt(s, self) == Kept(HintsAt(old(s), self), outcomes, known) && SameExceptAt(self, old(s).hints, s.hints)
      ensures Tried(old(s).stores, s.stores, HintsAt(old(s), self), outcomes, known, |outcomes|)
      ensures replayed + |HintsAt(s, self)| == |HintsAt(old(s), self)|
    {
      var hs := HintsAt(s, self);
      if hs == [] { return 0; }
      var keep;
      keep, replayed := PushAll(hs, outcomes, known);
      RewriteLog(hs, outcomes, known, keep);
    }

    lemma StoresKeyed()
      requires Valid()
      ensures forall n, id | n in s.stores && id in s.stores[n] :: s.stores[n][id].id == id
    {
      ReachableInv(All(), s);
    }

    /** Try every hint once, collecting those to keep. */
    method PushAll(hs: seq<Hint>, outcomes: seq<Outcome>, known: set<Node>) returns (keep: seq<Hint>, replayed: nat)
      requires Valid() && hs == HintsAt(s, self) && |outcomes| == |hs|
      modifies this
      ensures Valid() && Replaying(old(s), hs, outcomes, known, |hs|)
      ensures keep == Kept(hs, outcomes, known) && replayed + |keep| == |hs|
    {
      keep, replayed := [], 0;
      ghost var s0 := s;
      for i := 0 to |hs|
        invariant Valid() && Replaying(s0, hs, outcomes, known, i)
        invariant keep == Kept(hs[..i], outcomes[..i], known) && replayed + |keep| == i
      {
        KeptNext(hs, outcomes, known, i);
        var pushed := TryNext(s0, hs, outcomes, known, i);
        if pushed { replayed := replayed + 1; } else { keep := keep + [hs[i]]; }
      }
      assert hs[..|hs|] == hs && outcomes[..|hs|] == outcomes;
    }

    /** The pass after the first `i` hints: only stores have changed, by what arrived. */
    ghost predicate Replaying(s0: State, hs: seq<Hint>, outcomes: seq<Outcome>, known: set<Node>, i: nat)
      requires i <= |hs| == |outcomes|
      reads this
    {
      && s == s0.(stores := s.stores) && hs == HintsAt(s0, self)
      && Tried(s0.stores, s.stores, hs, outcomes, known, i) && Landed(s.stores, hs, outcomes, known, i)
    }

    method TryNext(ghost s0: State, hs: seq<Hint>, outcomes: seq<Outcome>, known: set<Node>, i: nat) returns (pushed: bool)
      requires Valid() && i < |hs| == |outcomes| && Replaying(s0, hs, outcomes, known, i)
      modifies this
      ensures Valid() && Replaying(s0, hs, outcomes, known, i + 1) && pushed == Pushed(hs[i], outcomes[i], known)
    {
      TriedNext(s0.stores, s.stores, hs, outcomes, known, i);
      LandedNext(s.stores, hs, outcomes, known, i);
      PushHint(hs[i], outcomes[i], known);
      pushed := Pushed(hs[i], outcomes[i], known);
    }

    method PushHint(h: Hint, o: Outcome, known: set<Node>)
      requires Valid() && h.target in All() && h.write in s.issued
      modifies this
      ensures Valid() && h.target in old(s).stores && s == old(s).(stores := AfterPush(old(s).stores, h, o, known))
    {
      if Took(h, o, known) { PushTo(h.target, h.write); }
    }

    /** Overwrite the log with what is kept, once every answered push has landed. */
    method RewriteLog(hs: seq<Hint>, outcomes: seq<Outcome>, known: set<Node>, keep: seq<Hint>)
      requires Valid() && hs == HintsAt(s, self) && |outcomes| == |hs| && keep == Kept(hs, outcomes, known)
      requires Landed(s.stores, hs, outcomes, known, |hs|)
      modifies this
      ensures Valid() && s == old(s).(hints := old(s).hints[self := keep])
    {
      ghost var ok := seq(|hs|, i requires 0 <= i < |hs| => Pushed(hs[i], outcomes[i], known));
      ReplayLanded(s.stores, hs, outcomes, known, ok);
      Take(Replay(self, seq(|hs|, i requires 0 <= i < |hs| => Pushed(hs[i], outcomes[i], known))));
    }

    // ---- shard transfer ------------------------------------------------------

    /** Pull a shard's records from `source`: this node ends at the last-writer-wins
        join of both and reports how many ids the source was ahead on. */
    method PullShard(source: Node, records: seq<Write>, reachable: bool) returns (r: Option<nat>)
      requires Valid() && source in All() && self in All() && Lists(records, s.stores[source])
      modifies this
      ensures Valid()
      ensures !reachable ==> r.None? && s == old(s)
      ensures reachable ==>
        && r == Some(|NewerIds(old(s).stores[self], old(s).stores[source])|)
        && s == old(s).(stores := old(s).stores[self := Join(old(s).stores[self], old(s).stores[source])])
    {
      if !reachable { return None; }
      TransferFacts(source, records);
      ghost var s0, target := s, s.stores[self];
      var applied := 0;
      assert s.stores[self := ApplyAll(target, records[..0])] == s.stores;
      for i := 0 to |records|
        invariant Valid() && s == s0.(stores := s0.stores[self := ApplyAll(target, records[..i])])
        invariant applied == |Won(target, records[..i])|
      {
        WonNext(target, records, i);
        SetTwice(s0.stores, self, ApplyAll(target, records[..i]), ApplyAll(target, records[..i + 1]));
        var outcome := PullOne(records[i]);
        if outcome { applied := applied + 1; }
      }
      assert records[..|records|] == records;
      r := Some(applied);
    }

    /** One record arriving at this node; true when it won. */
    method PullOne(w: Write) returns (applied: bool)
      requires Valid() && self in All() && w in s.issued
      modifies this
      ensures Valid() && self in old(s).stores && applied == !IsStale(old(s).stores[self], w)
      ensures s == old(s).(stores := old(s).stores[self := Apply(old(s).stores[self], w)])
    {
      applied := !IsStale(s.stores[self], w);
      PushTo(self, w);
    }

    lemma TransferFacts(source: Node, records: seq<Write>)
      requires Valid() && source in All() && self in All() && Lists(records, s.stores[source])
      ensures forall w | w in records :: w in s.issued
      ensures ApplyAll(s.stores[self], records) == Join(s.stores[self], s.stores[source])
      ensures Won(s.stores[self], records) == NewerIds(s.stores[self], s.stores[source])
    {
      ReachableInv(All(), s);
      forall w | w in records ensures w in s.issued { assert w in Elements(records); }
      TransferIsJoin(s.stores[self], s.stores[source], records);
      WonIsNewer(s.stores[self], s.stores[source], records);
    }
  }

  lemma AnswerCount(stores: map<Node, Store>, id: u64, nodes: set<Node>)
    requires nodes <= stores.Keys
    ensures |ReadFrom(stores, id, nodes)| == |nodes|
  {
    assert ReadFrom(stores, id, nodes).Keys == nodes;
  }

  /** Pushing to the replicas behind is pushing to all that answered: the others
      reject the winner as stale. */
  lemma RepairCoversAll(before: map<Node, Store>, after: map<Node, Store>, responses: seq<Response>, win: Write, stale: seq<Node>, up: set<Node>, delivered: set<Node>)
    requires up <= before.Keys && Collected(responses, ReadFrom(before, win.id, up))
    requires forall n :: n in stale <==> exists k :: 0 <= k < |responses| && responses[k].node == n && Behind(responses[k].version, win)
    requires Repaired(before, after, win, Nodes(stale) * delivered)
    ensures Repaired(before, after, win, up * delivered)
  {
    var m := ReadFrom(before, win.id, up);
    assert m.Keys == up;
    forall n | n in before ensures after[n] == if n in up * delivered then Apply(before[n], win) else before[n] {
      if n in up {
        assert Response(n, m[n]) in responses;
        var k :| 0 <= k < |responses| && responses[k] == Response(n, m[n]);
        if n !in stale { assert !Behind(m[n], win); }
      }
    }
  }

  lemma {:induction false} DistinctSize(xs: seq<Node>)
    requires Distinct(xs)
    ensures |Nodes(xs)| == |xs|
  {
    if xs != [] {
      var m := |xs| - 1;
      DistinctSize(xs[..m]);
      assert Nodes(xs) == Nodes(xs[..m]) + {xs[m]};
      assert xs[m] !in xs[..m];
    }
  }
}
