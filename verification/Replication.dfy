/** Leaderless replication of one shard as a step relation
    (crates/qv-node/src/router.rs with crates/qv-storage/src/hints.rs and
    crates/qv-node/src/node_state.rs). Steps of different operations interleave
    freely; membership is fixed. */
module Replication {
  import opened Bytes
  import opened Clocks
  import opened Lww

  type Node = u64

  // ---- consistency levels ---------------------------------------------------

  datatype Level = One | Quorum | All

  function Clamp(x: nat, lo: nat, hi: nat): nat { if x < lo then lo else if x > hi then hi else x }

  /** Required acks or answers for a replica set of size `n`. */
  function Count(level: Level, n: nat): nat {
    Clamp(match level case One => 1 case Quorum => n / 2 + 1 case All => n, 1, if n < 1 then 1 else n)
  }

  /** What a level asks for, without counting: one answer, a strict majority, or all. */
  ghost predicate Enough(level: Level, n: nat, got: nat) {
    match level
    case One => got >= 1
    case Quorum => 2 * got > n
    case All => got >= n
  }

  /** `c` answers are enough and one fewer are not. */
  ghost predicate Needs(level: Level, n: nat, c: nat) { Enough(level, n, c) && (c == 0 || !Enough(level, n, c - 1)) }

  /** The count is the least number of answers that are enough. */
  lemma CountIsLeast(level: Level, n: nat, got: nat)
    requires n >= 1
    ensures Needs(level, n, Count(level, n))
    ensures got >= Count(level, n) <==> Enough(level, n, got)
  {}

  /** Write and read thresholds that must share a replica. */
  predicate Overlap(w: Level, r: Level, n: nat) { Count(w, n) + Count(r, n) > n }

  /** Exactly which pairs of levels overlap: QUORUM with QUORUM or ALL, ALL with
      anything, and every pair when there is at most one replica. */
  lemma OverlapIff(w: Level, r: Level, n: nat)
    ensures Overlap(w, r, n) <==> n <= 1 || w == All || r == All || (w == Quorum && r == Quorum) || (n == 2 && (w == Quorum || r == Quorum))
    ensures 1 <= Count(w, n) && (n >= 1 ==> Count(w, n) <= n)
  {}

  // ---- state ----------------------------------------------------------------

  datatype Hint = Hint(target: Node, write: Write)

  /** A write in flight at its coordinator. */
  datatype Pending = Pending(write: Write, level: Level, coord: Node, todo: set<Node>, ackers: set<Node>, unreachable: set<Node>)

  /** A write acknowledged to its client and the replicas that answered. */
  datatype Ack = Ack(write: Write, level: Level, ackers: set<Node>)

  /** A Get in progress: what had been acknowledged when it began (history, not
      visible to the code) and the versions the replicas returned so far. */
  datatype Read = Read(id: u64, level: Level, before: set<Ack>, responses: map<Node, Option<Write>>)

  datatype State = State(
    stores: map<Node, Store>,
    hints: map<Node, seq<Hint>>,
    issued: set<Write>,
    pending: map<nat, Pending>,
    acked: set<Ack>,
    abandoned: set<Write>,
    gets: map<nat, Read>)

  function HintsAt(s: State, holder: Node): seq<Hint> { if holder in s.hints then s.hints[holder] else [] }

  function Version(st: Store, id: u64): Option<Write> { if id in st then Some(st[id]) else None }

  /** `replay_hints`: push every hint whose target answers and keep the rest, in order. */
  function PushHints(stores: map<Node, Store>, hs: seq<Hint>, ok: seq<bool>): (map<Node, Store>, seq<Hint>)
    requires |hs| == |ok| && forall i | 0 <= i < |hs| :: hs[i].target in stores
    ensures PushHints(stores, hs, ok).0.Keys == stores.Keys
  {
    if hs == [] then (stores, [])
    else
      var n := |hs| - 1;
      var (st, keep) := PushHints(stores, hs[..n], ok[..n]);
      if ok[n] then (st[hs[n].target := Apply(st[hs[n].target], hs[n].write)], keep)
      else (st, keep + [hs[n]])
  }

  datatype Step =
    | Issue(op: nat, coord: Node, w: Write, level: Level)  // a coordinator stamps a write
    | Deliver(node: Node, w: Write)        // any issued write reaches a replica: late, again, or by repair
    | Answer(op: nat, node: Node)          // a replica applied the write or was newer, and the answer came back
    | Fail(op: nat, node: Node)            // no answer; the write may have been delivered or not
    | Buffer(op: nat, node: Node)          // the coordinator made a hint durable
    | Finish(op: nat)                      // all replicas answered or hinted: report to the client
    | Abandon(op: nat)                     // the coordinator stopped half way
    | Replay(holder: Node, ok: seq<bool>)  // one pass over a hint log
    | ReadBegin(r: nat, id: u64, level: Level)
    | ReadOne(r: nat, node: Node)
    | ReadEnd(r: nat)                      // the Get returns, or fails for want of answers

  predicate Enabled(replicas: set<Node>, s: State, step: Step) {
    match step
    case Issue(op, _, w, _) => op !in s.pending && Functional(s.issued + {w}) && replicas != {}
    case Deliver(n, w) => n in replicas && w in s.issued
    case Answer(op, n) => op in s.pending && n in s.pending[op].todo && n in replicas
    case Fail(op, n) => op in s.pending && n in s.pending[op].todo
    case Buffer(op, n) => op in s.pending && n in s.pending[op].unreachable
    case Finish(op) => op in s.pending && s.pending[op].todo == {} && s.pending[op].unreachable == {}
    case Abandon(op) => op in s.pending
    case Replay(h, ok) => |ok| == |HintsAt(s, h)|
    case ReadBegin(r, _, _) => r !in s.gets
    case ReadOne(r, n) => r in s.gets && n in replicas && n !in s.gets[r].responses
    case ReadEnd(r) => r in s.gets
  }

  /** Every hint names a replica that exists. */
  ghost predicate HintsOk(replicas: set<Node>, s: State) {
    forall h, i | h in s.hints && 0 <= i < |s.hints[h]| :: s.hints[h][i].target in replicas && s.hints[h][i].write in s.issued
  }

  function Do(replicas: set<Node>, s: State, step: Step): State
    requires Enabled(replicas, s, step) && s.stores.Keys == replicas && HintsOk(replicas, s)
  {
    match step
    case Issue(op, c, w, level) =>
      s.(issued := s.issued + {w}, pending := s.pending[op := Pending(w, level, c, replicas, {}, {})])
    case Deliver(n, w) => s.(stores := s.stores[n := Apply(s.stores[n], w)])
    case Answer(op, n) =>
      var p := s.pending[op];
      s.(stores := s.stores[n := Apply(s.stores[n], p.write)],
         pending := s.pending[op := p.(todo := p.todo - {n}, ackers := p.ackers + {n})])
    case Fail(op, n) =>
      var p := s.pending[op];
      s.(pending := s.pending[op := p.(todo := p.todo - {n}, unreachable := p.unreachable + {n})])
    case Buffer(op, n) =>
      var p := s.pending[op];
      s.(hints := s.hints[p.coord := HintsAt(s, p.coord) + [Hint(n, p.write)]],
         pending := s.pending[op := p.(unreachable := p.unreachable - {n})])
    case Finish(op) =>
      var p := s.pending[op];
      s.(pending := s.pending - {op},
         acked := if |p.ackers| >= Count(p.level, |replicas|) then s.acked + {Ack(p.write, p.level, p.ackers)} else s.acked)
    case Abandon(op) => s.(pending := s.pending - {op}, abandoned := s.abandoned + {s.pending[op].write})
    case Replay(h, ok) =>
      var (st, keep) := PushHints(s.stores, HintsAt(s, h), ok);
      s.(stores := st, hints := s.hints[h := keep])
    case ReadBegin(r, id, level) => s.(gets := s.gets[r := Read(id, level, s.acked, map[])])
    case ReadOne(r, n) =>
      var rd := s.gets[r];
      s.(gets := s.gets[r := rd.(responses := rd.responses[n := Version(s.stores[n], rd.id)])])
    case ReadEnd(r) => s.(gets := s.gets - {r})
  }

  // ---- the invariant --------------------------------------------------------

  ghost predicate HintPending(s: State, n: Node, w: Write) {
    exists h :: h in s.hints && Hint(n, w) in s.hints[h]
  }

  /** The replica holds the write or something newer, or a hint for it is pending. */
  ghost predicate Safe(s: State, n: Node, w: Write)
    requires n in s.stores
  {
    Covers(s.stores[n], w) || HintPending(s, n, w)
  }

  ghost predicate StoresOk(replicas: set<Node>, s: State) {
    && s.stores.Keys == replicas
    && forall n, id | n in replicas && id in s.stores[n] :: s.stores[n][id] in s.issued && s.stores[n][id].id == id
  }

  ghost predicate PendingOk(replicas: set<Node>, s: State, p: Pending)
    requires s.stores.Keys == replicas
  {
    && p.write in s.issued && p.todo <= replicas && p.ackers <= replicas && p.unreachable <= replicas
    && (forall n | n in p.ackers :: Covers(s.stores[n], p.write))
    && (forall n | n in replicas && n !in p.todo && n !in p.unreachable :: Safe(s, n, p.write))
  }

  ghost predicate InFlight(s: State, w: Write) { exists op :: op in s.pending && s.pending[op].write == w }

  /** Every issued write is still in flight, was abandoned, or is safe everywhere. */
  ghost predicate WritesOk(replicas: set<Node>, s: State)
    requires s.stores.Keys == replicas
  {
    forall w, n | w in s.issued && n in replicas :: w in s.abandoned || InFlight(s, w) || Safe(s, n, w)
  }

  ghost predicate AckOk(replicas: set<Node>, s: State, a: Ack)
    requires s.stores.Keys == replicas
  {
    && a.write in s.issued && a.ackers <= replicas && |a.ackers| >= Count(a.level, |replicas|)
    && forall n | n in a.ackers :: Covers(s.stores[n], a.write)
  }

  /** A replica that acknowledged a write before the read began answered with a
      version at least as new. */
  ghost predicate ReadOk(replicas: set<Node>, s: State, rd: Read) {
    && rd.before <= s.acked && rd.responses.Keys <= replicas
    && (forall n | n in rd.responses && rd.responses[n].Some? :: rd.responses[n].value in s.issued && rd.responses[n].value.id == rd.id)
    && (forall a, n | a in rd.before && n in a.ackers && n in rd.responses && a.write.id == rd.id ::
          rd.responses[n].Some? && a.write.hlc.Le(rd.responses[n].value.hlc))
  }

  ghost predicate Inv(replicas: set<Node>, s: State) {
    && StoresOk(replicas, s) && Functional(s.issued) && HintsOk(replicas, s)
    && (forall op | op in s.pending :: PendingOk(replicas, s, s.pending[op]))
    && WritesOk(replicas, s)
    && (forall a | a in s.acked :: AckOk(replicas, s, a))
    && (forall r | r in s.gets :: ReadOk(replicas, s, s.gets[r]))
  }

  function Start(replicas: set<Node>): State {
    State(map n | n in replicas :: map[], map[], {}, map[], {}, {}, map[])
  }

  lemma StartInv(replicas: set<Node>)
    ensures Inv(replicas, Start(replicas))
  {}

  // ---- what every step has in common ----------------------------------------

  /** Stores move forward, records only grow, and no hint disappears before its
      write is applied at the target. */
  ghost predicate Progress(replicas: set<Node>, s: State, t: State) {
    && s.stores.Keys == replicas && t.stores.Keys == replicas
    && s.issued <= t.issued && s.acked <= t.acked && s.abandoned <= t.abandoned
    && (forall n | n in replicas :: t.stores[n] == s.stores[n] || AtLeast(t.stores[n], s.stores[n]))
    && (forall n, w | n in replicas && HintPending(s, n, w) :: Safe(t, n, w))
  }

  /** No operation is forgotten: it goes on, or its write is abandoned or safe. */
  ghost predicate NoneForgotten(replicas: set<Node>, s: State, t: State)
    requires t.stores.Keys == replicas
  {
    && (forall op | op in s.pending ::
          || (op in t.pending && t.pending[op].write == s.pending[op].write)
          || s.pending[op].write in t.abandoned
          || (forall n | n in replicas :: Safe(t, n, s.pending[op].write)))
    && (forall w | w in t.issued && w !in s.issued :: InFlight(t, w))
  }

  lemma PendingKept(replicas: set<Node>, s: State, t: State, p: Pending)
    requires Progress(replicas, s, t) && PendingOk(replicas, s, p)
    ensures PendingOk(replicas, t, p)
  {}

  lemma AckKept(replicas: set<Node>, s: State, t: State, a: Ack)
    requires Progress(replicas, s, t) && AckOk(replicas, s, a)
    ensures AckOk(replicas, t, a)
  {}

  lemma WritesKept(replicas: set<Node>, s: State, t: State)
    requires Progress(replicas, s, t) && NoneForgotten(replicas, s, t) && WritesOk(replicas, s)
    ensures WritesOk(replicas, t)
  {}

  /** The invariant survives a step when what the step changed is in order. */
  lemma ProgressKeepsInv(replicas: set<Node>, s: State, t: State)
    requires Inv(replicas, s) && Progress(replicas, s, t) && NoneForgotten(replicas, s, t)
    requires StoresOk(replicas, t) && HintsOk(replicas, t) && Functional(t.issued)
    requires forall op | op in t.pending :: (op in s.pending && t.pending[op] == s.pending[op]) || PendingOk(replicas, t, t.pending[op])
    requires forall a | a in t.acked :: a in s.acked || AckOk(replicas, t, a)
    requires forall r | r in t.gets :: (r in s.gets && t.gets[r] == s.gets[r]) || ReadOk(replicas, t, t.gets[r])
    ensures Inv(replicas, t)
  {
    WritesKept(replicas, s, t);
    forall op | op in t.pending ensures PendingOk(replicas, t, t.pending[op]) {
      if op in s.pending && t.pending[op] == s.pending[op] { PendingKept(replicas, s, t, s.pending[op]); }
    }
    forall a | a in t.acked ensures AckOk(replicas, t, a) { if a in s.acked { AckKept(replicas, s, t, a); } }
    forall r | r in t.gets ensures ReadOk(replicas, t, t.gets[r]) { if r in s.gets { assert ReadOk(replicas, s, s.gets[r]); } }
  }

  /** A step that touches neither stores nor hints makes progress trivially. */
  lemma QuietProgress(replicas: set<Node>, s: State, t: State)
    requires s.stores.Keys == replicas && t.stores == s.stores && t.hints == s.hints
    requires s.issued <= t.issued && s.acked <= t.acked && s.abandoned <= t.abandoned
    ensures Progress(replicas, s, t)
  {}

  // ---- hint replay ----------------------------------------------------------

  /** One pass over a hint log: stores move forward, a pushed hint's write is covered
      at its target, an unpushed hint is kept. */
  lemma {:induction false} PushHintsLosesNothing(stores: map<Node, Store>, hs: seq<Hint>, ok: seq<bool>)
    requires |hs| == |ok| && forall i | 0 <= i < |hs| :: hs[i].target in stores
    ensures
      var (st, keep) := PushHints(stores, hs, ok);
      && (forall n | n in stores :: AtLeast(st[n], stores[n]))
      && (forall i | 0 <= i < |hs| :: if ok[i] then Covers(st[hs[i].target], hs[i].write) else hs[i] in keep)
    decreases |hs|
  {
    if hs != [] {
      var n := |hs| - 1;
      PushHintsLosesNothing(stores, hs[..n], ok[..n]);
      var (st, keep) := PushHints(stores, hs[..n], ok[..n]);
      var (st', keep') := PushHints(stores, hs, ok);
      if ok[n] { ApplyMovesForward(st[hs[n].target], hs[n].write); }
      forall m | m in stores ensures AtLeast(st'[m], st[m]) && AtLeast(st'[m], stores[m]) {
        AtLeastTransitive(stores[m], st[m], st'[m]);
      }
      forall i | 0 <= i < n ensures if ok[i] then Covers(st'[hs[i].target], hs[i].write) else hs[i] in keep' {
        assert hs[..n][i] == hs[i] && ok[..n][i] == ok[i];
        if ok[i] { CoversMonotone(st[hs[i].target], st'[hs[i].target], hs[i].write); }
      }
    }
  }

  /** ... and nothing appears that was not stored or hinted before. */
  lemma {:induction false} PushHintsInventsNothing(stores: map<Node, Store>, hs: seq<Hint>, ok: seq<bool>)
    requires |hs| == |ok| && forall i | 0 <= i < |hs| :: hs[i].target in stores
    ensures
      var (st, keep) := PushHints(stores, hs, ok);
      && (forall h | h in keep :: h in hs)
      && (forall n, id | n in stores && id in st[n] ::
            (id in stores[n] && st[n][id] == stores[n][id]) || (st[n][id].id == id && Hint(n, st[n][id]) in hs))
    decreases |hs|
  {
    if hs != [] {
      var n := |hs| - 1;
      PushHintsInventsNothing(stores, hs[..n], ok[..n]);
      assert hs[n] in hs && forall h | h in hs[..n] :: h in hs;
    }
  }

  lemma AtLeastTransitive(a: Store, b: Store, c: Store)
    requires AtLeast(b, a) && (c == b || AtLeast(c, b))
    ensures AtLeast(c, a)
  {}

  lemma ReplayKeepsSafe(s: State, h: Node, ok: seq<bool>, t: State, n: Node, w: Write)
    requires |ok| == |HintsAt(s, h)| && forall i | 0 <= i < |HintsAt(s, h)| :: HintsAt(s, h)[i].target in s.stores
    requires var (st, keep) := PushHints(s.stores, HintsAt(s, h), ok); t == s.(stores := st, hints := s.hints[h := keep])
    requires n in s.stores && HintPending(s, n, w)
    ensures n in t.stores && Safe(t, n, w)
  {
    PushHintsLosesNothing(s.stores, HintsAt(s, h), ok);
    var g :| g in s.hints && Hint(n, w) in s.hints[g];
    if g == h {
      var i :| 0 <= i < |s.hints[h]| && s.hints[h][i] == Hint(n, w);
      if !ok[i] { assert Hint(n, w) in t.hints[h]; }
    } else {
      assert g in t.hints && t.hints[g] == s.hints[g];
    }
  }

  // ---- every step keeps the invariant ---------------------------------------

  lemma IssueKeepsInv(replicas: set<Node>, s: State, t: State, op: nat, p: Pending)
    requires Inv(replicas, s) && op !in s.pending && Functional(s.issued + {p.write})
    requires p.todo == replicas && p.ackers == {} && p.unreachable == {}
    requires t == s.(issued := s.issued + {p.write}, pending := s.pending[op := p])
    ensures Inv(replicas, t)
  {
    QuietProgress(replicas, s, t);
    assert t.pending[op] == p;
    ProgressKeepsInv(replicas, s, t);
  }

  /** A write reaching a replica: `t` is `s` but for one store that applied `w`. */
  lemma DeliverProgress(replicas: set<Node>, s: State, t: State, n: Node, w: Write)
    requires StoresOk(replicas, s) && n in replicas && w in s.issued
    requires t == s.(stores := s.stores[n := Apply(s.stores[n], w)], pending := t.pending)
    ensures Progress(replicas, s, t) && StoresOk(replicas, t) && Covers(t.stores[n], w)
  {}

  lemma DeliverKeepsInv(replicas: set<Node>, s: State, t: State, n: Node, w: Write)
    requires Inv(replicas, s) && n in replicas && w in s.issued
    requires t == s.(stores := s.stores[n := Apply(s.stores[n], w)])
    ensures Inv(replicas, t)
  {
    DeliverProgress(replicas, s, t, n, w);
    ProgressKeepsInv(replicas, s, t);
  }

  /** One replica of a pending write is settled: it covers the write, or waits for a
      hint, or has one. */
  ghost predicate SettleOk(replicas: set<Node>, t: State, p: Pending, q: Pending, n: Node)
    requires t.stores.Keys == replicas
  {
    && n in replicas
    && q.write == p.write && q.todo <= p.todo && q.ackers <= p.ackers + {n} && q.unreachable <= p.unreachable + {n}
    && (forall m | m in p.todo || m in p.unreachable :: m == n || m in q.todo || m in q.unreachable)
    && (n in q.ackers ==> n in p.ackers || Covers(t.stores[n], p.write))
    && (n in q.todo || n in q.unreachable || Safe(t, n, p.write))
  }

  lemma SettleKeepsPending(replicas: set<Node>, s: State, t: State, p: Pending, q: Pending, n: Node)
    requires Progress(replicas, s, t) && PendingOk(replicas, s, p) && SettleOk(replicas, t, p, q, n)
    ensures PendingOk(replicas, t, q)
  {}

  lemma SettleKeepsInv(replicas: set<Node>, s: State, t: State, op: nat, n: Node)
    requires Inv(replicas, s) && op in s.pending && Progress(replicas, s, t) && StoresOk(replicas, t) && HintsOk(replicas, t)
    requires t.issued == s.issued && t.acked == s.acked && t.gets == s.gets && op in t.pending && t.pending == s.pending[op := t.pending[op]]
    requires SettleOk(replicas, t, s.pending[op], t.pending[op], n)
    ensures Inv(replicas, t)
  {
    SettleKeepsPending(replicas, s, t, s.pending[op], t.pending[op], n);
    ProgressKeepsInv(replicas, s, t);
  }

  lemma FailKeepsInv(replicas: set<Node>, s: State, t: State, op: nat, n: Node)
    requires Inv(replicas, s) && op in s.pending && n in s.pending[op].todo
    requires var p := s.pending[op]; t == s.(pending := s.pending[op := p.(todo := p.todo - {n}, unreachable := p.unreachable + {n})])
    ensures Inv(replicas, t)
  {
    QuietProgress(replicas, s, t);
    SettleKeepsInv(replicas, s, t, op, n);
  }

  lemma AnswerKeepsInv(replicas: set<Node>, s: State, t: State, op: nat, n: Node)
    requires Inv(replicas, s) && op in s.pending && n in s.pending[op].todo && n in replicas
    requires var p := s.pending[op];
      t == s.(stores := s.stores[n := Apply(s.stores[n], p.write)],
              pending := s.pending[op := p.(todo := p.todo - {n}, ackers := p.ackers + {n})])
    ensures Inv(replicas, t)
  {
    DeliverProgress(replicas, s, t, n, s.pending[op].write);
    SettleKeepsInv(replicas, s, t, op, n);
  }

  lemma BufferProgress(replicas: set<Node>, s: State, t: State, c: Node, h: Hint)
    requires s.stores.Keys == replicas && HintsOk(replicas, s) && h.target in replicas && h.write in s.issued
    requires t == s.(hints := s.hints[c := HintsAt(s, c) + [h]], pending := t.pending)
    ensures Progress(replicas, s, t) && HintsOk(replicas, t) && HintPending(t, h.target, h.write)
  {
    assert t.hints[c][|HintsAt(s, c)|] == h;
    assert Hint(h.target, h.write) in t.hints[c];
    forall m, w | m in replicas && HintPending(s, m, w) ensures Safe(t, m, w) {
      var g :| g in s.hints && Hint(m, w) in s.hints[g];
      assert g in t.hints && Hint(m, w) in t.hints[g];
    }
  }

  lemma BufferKeepsInv(replicas: set<Node>, s: State, t: State, op: nat, n: Node)
    requires Inv(replicas, s) && op in s.pending && n in s.pending[op].unreachable
    requires var p := s.pending[op];
      t == s.(hints := s.hints[p.coord := HintsAt(s, p.coord) + [Hint(n, p.write)]],
              pending := s.pending[op := p.(unreachable := p.unreachable - {n})])
    ensures Inv(replicas, t)
  {
    var p := s.pending[op];
    BufferProgress(replicas, s, t, p.coord, Hint(n, p.write));
    SettleKeepsInv(replicas, s, t, op, n);
  }

  lemma FinishKeepsInv(replicas: set<Node>, s: State, t: State, op: nat)
    requires Inv(replicas, s) && op in s.pending && t == s.(pending := s.pending - {op}, acked := t.acked)
    requires var p := s.pending[op];
      && PendingOk(replicas, s, p) && p.todo == {} && p.unreachable == {}
      && (t.acked == s.acked || (t.acked == s.acked + {Ack(p.write, p.level, p.ackers)} && |p.ackers| >= Count(p.level, |replicas|)))
    ensures Inv(replicas, t)
  {
    QuietProgress(replicas, s, t);
    SettledEverywhere(replicas, s, t, s.pending[op]);
    EndForgetsNone(replicas, s, t, op);
    ProgressKeepsInv(replicas, s, t);
  }

  lemma EndForgetsNone(replicas: set<Node>, s: State, t: State, op: nat)
    requires t.stores.Keys == replicas && op in s.pending && t.pending == s.pending - {op} && t.issued == s.issued
    requires forall n | n in replicas :: Safe(t, n, s.pending[op].write)
    ensures NoneForgotten(replicas, s, t)
  {}

  /** Nothing left to do: the write is safe at every replica and covered where acked. */
  lemma SettledEverywhere(replicas: set<Node>, s: State, t: State, p: Pending)
    requires Progress(replicas, s, t) && PendingOk(replicas, s, p) && p.todo == {} && p.unreachable == {}
    ensures forall n | n in replicas :: Safe(t, n, p.write)
    ensures |p.ackers| >= Count(p.level, |replicas|) ==> AckOk(replicas, t, Ack(p.write, p.level, p.ackers))
  {}

  lemma AbandonKeepsInv(replicas: set<Node>, s: State, t: State, op: nat)
    requires Inv(replicas, s) && op in s.pending
    requires t == s.(pending := s.pending - {op}, abandoned := s.abandoned + {s.pending[op].write})
    ensures Inv(replicas, t)
  {
    QuietProgress(replicas, s, t);
    ProgressKeepsInv(replicas, s, t);
  }

  lemma ReplayProgress(replicas: set<Node>, s: State, h: Node, ok: seq<bool>, t: State)
    requires StoresOk(replicas, s) && HintsOk(replicas, s) && |ok| == |HintsAt(s, h)|
    requires var (st, keep) := PushHints(s.stores, HintsAt(s, h), ok); t == s.(stores := st, hints := s.hints[h := keep])
    ensures Progress(replicas, s, t) && StoresOk(replicas, t) && HintsOk(replicas, t)
  {
    var hs := HintsAt(s, h);
    PushHintsLosesNothing(s.stores, hs, ok);
    PushHintsInventsNothing(s.stores, hs, ok);
    var (st, keep) := PushHints(s.stores, hs, ok);
    forall n, w | n in replicas && HintPending(s, n, w) ensures Safe(t, n, w) { ReplayKeepsSafe(s, h, ok, t, n, w); }
    forall g, i | g in t.hints && 0 <= i < |t.hints[g]| ensures t.hints[g][i].target in replicas && t.hints[g][i].write in t.issued {
      if g == h { assert keep[i] in hs; }
    }
    forall n, id | n in replicas && id in st[n] ensures st[n][id] in s.issued && st[n][id].id == id {
      if Hint(n, st[n][id]) in hs { var i :| 0 <= i < |hs| && hs[i] == Hint(n, st[n][id]); }
    }
  }

  lemma ReplayKeepsInv(replicas: set<Node>, s: State, t: State, h: Node, ok: seq<bool>)
    requires Inv(replicas, s) && |ok| == |HintsAt(s, h)|
    requires var (st, keep) := PushHints(s.stores, HintsAt(s, h), ok); t == s.(stores := st, hints := s.hints[h := keep])
    ensures Inv(replicas, t)
  {
    ReplayProgress(replicas, s, h, ok, t);
    ProgressKeepsInv(replicas, s, t);
  }

  lemma ReadKeepsInv(replicas: set<Node>, s: State, t: State)
    requires Inv(replicas, s) && t == s.(gets := t.gets)
    requires forall r | r in t.gets :: (r in s.gets && t.gets[r] == s.gets[r]) || ReadOk(replicas, s, t.gets[r])
    ensures Inv(replicas, t)
  {
    QuietProgress(replicas, s, t);
    ProgressKeepsInv(replicas, s, t);
  }

  /** What a replica returns now covers every write it acknowledged earlier. */
  lemma ReadOneOk(replicas: set<Node>, s: State, r: nat, n: Node)
    requires Inv(replicas, s) && r in s.gets && n in replicas
    ensures
      var rd := s.gets[r];
      ReadOk(replicas, s, rd.(responses := rd.responses[n := Version(s.stores[n], rd.id)]))
  {}

  predicate WriteStep(step: Step) { step.Issue? || step.Answer? || step.Fail? || step.Buffer? || step.Finish? || step.Abandon? }

  lemma WriteStepKeepsInv(replicas: set<Node>, s: State, step: Step)
    requires Inv(replicas, s) && Enabled(replicas, s, step) && WriteStep(step)
    ensures Inv(replicas, Do(replicas, s, step))
  {
    var t := Do(replicas, s, step);
    match step
    case Issue(op, c, w, level) => IssueKeepsInv(replicas, s, t, op, Pending(w, level, c, replicas, {}, {}));
    case Answer(op, n) => AnswerKeepsInv(replicas, s, t, op, n);
    case Fail(op, n) => FailKeepsInv(replicas, s, t, op, n);
    case Buffer(op, n) => BufferKeepsInv(replicas, s, t, op, n);
    case Finish(op) => FinishKeepsInv(replicas, s, t, op);
    case Abandon(op) => AbandonKeepsInv(replicas, s, t, op);
  }

  /** Every step of the protocol keeps the invariant. */
  lemma StepKeepsInv(replicas: set<Node>, s: State, step: Step)
    requires Inv(replicas, s) && Enabled(replicas, s, step)
    ensures Inv(replicas, Do(replicas, s, step))
  {
    if WriteStep(step) {
      WriteStepKeepsInv(replicas, s, step);
    } else {
      var t := Do(replicas, s, step);
      match step
      case Deliver(n, w) => DeliverKeepsInv(replicas, s, t, n, w);
      case Replay(h, ok) => ReplayKeepsInv(replicas, s, t, h, ok);
      case ReadBegin(_, _, _) => ReadKeepsInv(replicas, s, t);
      case ReadOne(r, n) => ReadOneOk(replicas, s, r, n); ReadKeepsInv(replicas, s, t);
      case ReadEnd(_) => ReadKeepsInv(replicas, s, t);
    }
  }
}
