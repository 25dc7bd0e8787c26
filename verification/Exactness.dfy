/** Where the run theorems stop holding: histories that let replicas stay apart, and
    levels that let a read miss an acknowledged write, each built as a run of the
    protocol (crates/qv-node/src/router.rs). */
module Exactness {
  import opened Bytes
  import opened Clocks
  import opened Lww
  import opened Replication
  import opened Convergence

  // ---- building runs --------------------------------------------------------

  /** The stores once `w` was applied at every node of `ns`. */
  function AppliedAt(stores: map<Node, Store>, ns: set<Node>, w: Write): map<Node, Store> {
    map n | n in stores :: if n in ns then Apply(stores[n], w) else stores[n]
  }

  /** Any of the replicas still to be asked can answer. */
  lemma {:induction false} Answers(replicas: set<Node>, s: State, op: nat, ns: set<Node>) returns (t: State)
    requires Reachable(replicas, s) && s.stores.Keys == replicas && op in s.pending && ns <= s.pending[op].todo && ns <= replicas
    ensures Reachable(replicas, t)
    ensures
      var p := s.pending[op];
      t == s.(stores := AppliedAt(s.stores, ns, p.write), pending := s.pending[op := p.(todo := p.todo - ns, ackers := p.ackers + ns)])
    decreases ns
  {
    var p := s.pending[op];
    if ns == {} {
      t := s;
      assert AppliedAt(s.stores, ns, p.write) == s.stores && p.todo - ns == p.todo && p.ackers + ns == p.ackers;
      assert s.pending[op := p] == s.pending;
    } else {
      var n :| n in ns;
      var u := Answers(replicas, s, op, ns - {n});
      t := OneAnswer(replicas, u, op, n);
      AnsweredMore(s, u, t, op, ns, n);
    }
  }

  lemma OneAnswer(replicas: set<Node>, u: State, op: nat, n: Node) returns (t: State)
    requires Reachable(replicas, u) && u.stores.Keys == replicas && op in u.pending && n in u.pending[op].todo && n in replicas
    ensures Reachable(replicas, t)
    ensures
      var p := u.pending[op];
      t == u.(stores := u.stores[n := Apply(u.stores[n], p.write)], pending := u.pending[op := p.(todo := p.todo - {n}, ackers := p.ackers + {n})])
  {
    ReachableStep(replicas, u, Answer(op, n));
    t := Do(replicas, u, Answer(op, n));
  }

  lemma AnsweredMore(s: State, u: State, t: State, op: nat, ns: set<Node>, n: Node)
    requires op in s.pending && n in ns && n in s.stores
    requires
      var p := s.pending[op];
      u == s.(stores := AppliedAt(s.stores, ns - {n}, p.write), pending := s.pending[op := p.(todo := p.todo - (ns - {n}), ackers := p.ackers + (ns - {n}))])
    requires
      var p := u.pending[op];
      t == u.(stores := u.stores[n := Apply(u.stores[n], p.write)], pending := u.pending[op := p.(todo := p.todo - {n}, ackers := p.ackers + {n})])
    ensures
      var p := s.pending[op];
      t == s.(stores := AppliedAt(s.stores, ns, p.write), pending := s.pending[op := p.(todo := p.todo - ns, ackers := p.ackers + ns)])
  {
    var p := s.pending[op];
    assert p.todo - (ns - {n}) - {n} == p.todo - ns && p.ackers + (ns - {n}) + {n} == p.ackers + ns;
    assert t.stores == AppliedAt(s.stores, ns, p.write);
  }

  /** Any of them can instead stay silent and be hinted; no store changes. */
  lemma {:induction false} Hinted(replicas: set<Node>, s: State, op: nat, ns: set<Node>) returns (t: State)
    requires Reachable(replicas, s) && op in s.pending && ns <= s.pending[op].todo && s.pending[op].unreachable == {}
    ensures Reachable(replicas, t)
    ensures
      var p := s.pending[op];
      t == s.(hints := t.hints, pending := s.pending[op := p.(todo := p.todo - ns)])
    decreases ns
  {
    var p := s.pending[op];
    if ns == {} {
      t := s;
      assert p.todo - ns == p.todo && s.pending[op := p] == s.pending;
    } else {
      var n :| n in ns;
      var u := Hinted(replicas, s, op, ns - {n});
      t := OneHint(replicas, u, op, n);
      assert p.todo - (ns - {n}) - {n} == p.todo - ns;
    }
  }

  lemma OneHint(replicas: set<Node>, u: State, op: nat, n: Node) returns (t: State)
    requires Reachable(replicas, u) && op in u.pending && n in u.pending[op].todo && u.pending[op].unreachable == {}
    ensures Reachable(replicas, t)
    ensures var p := u.pending[op]; t == u.(hints := t.hints, pending := u.pending[op := p.(todo := p.todo - {n})])
  {
    var p := u.pending[op];
    ReachableStep(replicas, u, Fail(op, n));
    var v := Do(replicas, u, Fail(op, n));
    ReachableStep(replicas, v, Buffer(op, n));
    t := Do(replicas, v, Buffer(op, n));
    assert {} + {n} - {n} == {};
  }

  /** A write taken up by its coordinator. */
  lemma Issued(replicas: set<Node>, s: State, w: Write, level: Level) returns (t: State)
    requires Reachable(replicas, s) && s.pending == map[] && Functional(s.issued + {w}) && replicas != {}
    ensures Reachable(replicas, t)
    ensures t == s.(issued := s.issued + {w}, pending := map[0 := Pending(w, level, 0, replicas, {}, {})])
  {
    ReachableStep(replicas, s, Issue(0, 0, w, level));
    t := Do(replicas, s, Issue(0, 0, w, level));
  }

  // ---- replicas that stay apart --------------------------------------------

  /** The writes that reached replica `m` in the history built below: the finished ones
      everywhere, the abandoned `w` at `n` only. */
  function Delivered(issued: set<Write>, abandoned: set<Write>, w: Write, n: Node, m: Node): set<Write> {
    issued - abandoned + if m == n && w in issued then {w} else {}
  }

  ghost predicate Apart(replicas: set<Node>, issued: set<Write>, abandoned: set<Write>, w: Write, n: Node, s: State) {
    && Reachable(replicas, s) && s.stores.Keys == replicas && s.issued == issued && s.abandoned == abandoned
    && s.pending == map[] && s.hints == map[] && StoresApart(s.stores, issued, abandoned, w, n)
  }

  ghost predicate StoresApart(stores: map<Node, Store>, issued: set<Write>, abandoned: set<Write>, w: Write, n: Node) {
    forall m | m in stores :: IsLww(stores[m], Delivered(issued, abandoned, w, n, m))
  }

  lemma FinishApart(stores: map<Node, Store>, issued: set<Write>, abandoned: set<Write>, w: Write, n: Node, x: Write)
    requires StoresApart(stores, issued, abandoned, w, n) && x !in issued && x !in abandoned && x != w
    ensures StoresApart(AppliedAt(stores, stores.Keys, x), issued + {x}, abandoned, w, n)
  {
    forall m | m in stores ensures IsLww(Apply(stores[m], x), Delivered(issued + {x}, abandoned, w, n, m)) {
      LwwAfterApply(stores[m], Delivered(issued, abandoned, w, n, m), x);
      FinishedMore(issued, abandoned, w, n, m, x);
    }
  }

  lemma FinishedMore(issued: set<Write>, abandoned: set<Write>, w: Write, n: Node, m: Node, x: Write)
    requires x !in abandoned && x != w
    ensures Delivered(issued + {x}, abandoned, w, n, m) == Delivered(issued, abandoned, w, n, m) + {x}
  {}

  lemma AbandonApart(stores: map<Node, Store>, issued: set<Write>, abandoned: set<Write>, w: Write, n: Node, x: Write)
    requires StoresApart(stores, issued, abandoned, w, n) && x !in issued && x !in abandoned
    ensures StoresApart(AppliedAt(stores, if x == w then {n} else {}, x), issued + {x}, abandoned + {x}, w, n)
  {
    var ns := if x == w then {n} else {};
    forall m | m in stores ensures IsLww(AppliedAt(stores, ns, x)[m], Delivered(issued + {x}, abandoned + {x}, w, n, m)) {
      LwwAfterApply(stores[m], Delivered(issued, abandoned, w, n, m), x);
      DeliveredMore(issued, abandoned, w, n, m, x);
    }
  }

  lemma DeliveredMore(issued: set<Write>, abandoned: set<Write>, w: Write, n: Node, m: Node, x: Write)
    requires x !in issued && x !in abandoned
    ensures
      var before := Delivered(issued, abandoned, w, n, m);
      Delivered(issued + {x}, abandoned + {x}, w, n, m) == if x == w && m == n then before + {x} else before
  {}

  /** Finish one more write everywhere. */
  lemma FinishOne(replicas: set<Node>, issued: set<Write>, abandoned: set<Write>, w: Write, n: Node, s: State, x: Write) returns (t: State)
    requires Apart(replicas, issued, abandoned, w, n, s) && replicas != {}
    requires x !in issued && x !in abandoned && x != w && Functional(issued + {x})
    ensures Apart(replicas, issued + {x}, abandoned, w, n, t)
  {
    var a := Issued(replicas, s, x, One);
    var b := Answers(replicas, a, 0, replicas);
    t := Finished(replicas, b);
    FinishApart(s.stores, issued, abandoned, w, n, x);
  }

  lemma Finished(replicas: set<Node>, b: State) returns (t: State)
    requires Reachable(replicas, b) && b.pending.Keys == {0} && b.pending[0].todo == {} && b.pending[0].unreachable == {}
    ensures Reachable(replicas, t) && t == b.(pending := map[], acked := t.acked)
  {
    ReachableStep(replicas, b, Finish(0));
    t := Do(replicas, b, Finish(0));
    assert b.pending - {0} == map[];
  }

  /** Abandon one more write, having delivered it to `ns` only. */
  lemma AbandonOne(replicas: set<Node>, s: State, x: Write, ns: set<Node>) returns (t: State)
    requires Reachable(replicas, s) && s.stores.Keys == replicas && s.pending == map[] && replicas != {} && ns <= replicas
    requires Functional(s.issued + {x})
    ensures Reachable(replicas, t) && t.hints == s.hints && t.pending == map[]
    ensures t.issued == s.issued + {x} && t.abandoned == s.abandoned + {x} && t.stores == AppliedAt(s.stores, ns, x)
  {
    var a := Issued(replicas, s, x, One);
    var b := Answers(replicas, a, 0, ns);
    ReachableStep(replicas, b, Abandon(0));
    t := Do(replicas, b, Abandon(0));
    assert b.pending - {0} == map[];
  }

  lemma AbandonKeepsApart(replicas: set<Node>, issued: set<Write>, abandoned: set<Write>, w: Write, n: Node, s: State, x: Write) returns (t: State)
    requires Apart(replicas, issued, abandoned, w, n, s) && n in replicas && x !in issued && x !in abandoned && Functional(issued + {x})
    ensures Apart(replicas, issued + {x}, abandoned + {x}, w, n, t)
  {
    var ns := if x == w then {n} else {};
    t := AbandonOne(replicas, s, x, ns);
    AbandonApart(s.stores, issued, abandoned, w, n, x);
  }

  lemma StartApart(replicas: set<Node>, w: Write, n: Node) returns (t: State)
    ensures Apart(replicas, {}, {}, w, n, t)
  {
    t := Start(replicas);
    StartReachable(replicas);
  }

  /** Every history with an abandoned write has such a run. */
  lemma {:induction false} BuildApart(replicas: set<Node>, issued: set<Write>, abandoned: set<Write>, w: Write, n: Node) returns (t: State)
    requires n in replicas && Functional(issued) && abandoned <= issued && (w in issued ==> w in abandoned)
    ensures Apart(replicas, issued, abandoned, w, n, t)
    decreases issued
  {
    if issued == {} {
      t := StartApart(replicas, w, n);
    } else {
      var x :| x in issued;
      var rest := issued - {x};
      assert rest + {x} == issued;
      var s := BuildApart(replicas, rest, abandoned - {x}, w, n);
      t := BuildMore(replicas, rest, abandoned, w, n, s, x);
    }
  }

  lemma BuildMore(replicas: set<Node>, rest: set<Write>, abandoned: set<Write>, w: Write, n: Node, s: State, x: Write) returns (t: State)
    requires Apart(replicas, rest, abandoned - {x}, w, n, s) && n in replicas && x !in rest && Functional(rest + {x})
    requires x == w ==> w in abandoned
    ensures Apart(replicas, rest + {x}, abandoned, w, n, t)
  {
    if x in abandoned {
      assert abandoned - {x} + {x} == abandoned;
      t := AbandonKeepsApart(replicas, rest, abandoned - {x}, w, n, s, x);
    } else {
      assert abandoned - {x} == abandoned;
      t := FinishOne(replicas, rest, abandoned, w, n, s, x);
    }
  }

  ghost predicate Agree(replicas: set<Node>, s: State, id: u64) {
    s.stores.Keys == replicas && forall m, n | m in replicas && n in replicas :: Version(s.stores[m], id) == Version(s.stores[n], id)
  }

  /** A reachable state with this history, at rest for the id, whose replicas differ. */
  ghost predicate Disagrees(replicas: set<Node>, issued: set<Write>, abandoned: set<Write>, id: u64, s: State) {
    Reachable(replicas, s) && s.issued == issued && s.abandoned == abandoned && AtRest(s, id) && !Agree(replicas, s, id)
  }

  lemma ApartDisagrees(replicas: set<Node>, issued: set<Write>, abandoned: set<Write>, w: Write, n: Node, m: Node, s: State)
    requires Apart(replicas, issued, abandoned, w, n, s) && w in abandoned && w in issued && n in replicas && m in replicas && m != n
    requires !Outlived(issued, abandoned, w)
    ensures Disagrees(replicas, issued, abandoned, w.id, s)
  {
    LoneWriteWins(s.stores[n], issued, abandoned, w, n);
    if w.id in s.stores[m] { assert s.stores[m][w.id] in Delivered(issued, abandoned, w, n, m); }
    assert Version(s.stores[m], w.id) != Version(s.stores[n], w.id);
  }

  lemma LoneWriteWins(st: Store, issued: set<Write>, abandoned: set<Write>, w: Write, n: Node)
    requires IsLww(st, Delivered(issued, abandoned, w, n, n)) && w in issued && !Outlived(issued, abandoned, w)
    ensures w.id in st && st[w.id] == w
  {
    assert w in Delivered(issued, abandoned, w, n, n);
    assert Covers(st, w) && st[w.id] in Delivered(issued, abandoned, w, n, n);
  }

  /** Exactly when a history guarantees agreement. With two or more replicas, and given
      which writes were issued and which of them abandoned: the replicas agree on an id in
      every reachable state where no write of it is in flight or hinted, if and only if
      every abandoned write of the id was superseded by one not abandoned. */
  lemma AgreementIff(replicas: set<Node>, issued: set<Write>, abandoned: set<Write>, id: u64)
    requires |replicas| >= 2 && Functional(issued) && abandoned <= issued
    ensures (exists s :: Disagrees(replicas, issued, abandoned, id, s)) <==> !Superseded(issued, abandoned, id)
  {
    if Superseded(issued, abandoned, id) {
      if s :| Disagrees(replicas, issued, abandoned, id, s) {
        ReachableInv(replicas, s);
        forall m, n | m in replicas && n in replicas ensures Version(s.stores[m], id) == Version(s.stores[n], id) {
          ReplicasAgree(replicas, s, id, m, n);
        }
      }
    } else {
      var w :| w in abandoned && w.id == id && !Outlived(issued, abandoned, w);
      var n :| n in replicas;
      var m :| m in replicas && m != n by { OtherMember(replicas, n); }
      var s := BuildApart(replicas, issued, abandoned, w, n);
      ApartDisagrees(replicas, issued, abandoned, w, n, m, s);
    }
  }

  lemma OtherMember(replicas: set<Node>, n: Node)
    requires |replicas| >= 2 && n in replicas
    ensures exists m :: m in replicas && m != n
  {
    assert |replicas - {n}| >= 1;
    var m :| m in replicas - {n};
  }

  // ---- reads that miss an acknowledged write -------------------------------

  /** In this run a write is acknowledged at level `wl` (step `i`), a Get of its id at
      level `rl` begins later (step `j`) and ends (step `k`) with enough answers, and the
      version it selects is missing or older. */
  ghost predicate Misses(replicas: set<Node>, wl: Level, rl: Level, run: Run, i: nat, j: nat, k: nat, op: nat, r: nat, win: Option<Write>) {
    && IsRun(replicas, run) && i < j < k < |run.steps|
    && run.steps[i] == Finish(op) && op in run.states[i].pending
    && var p := run.states[i].pending[op];
      && p.level == wl && |p.ackers| >= Count(wl, |replicas|)
      && run.steps[j] == ReadBegin(r, p.write.id, rl)
      && run.steps[k] == ReadEnd(r) && (forall x: nat | j < x < k :: run.steps[x] != ReadEnd(r))
      && r in run.states[k].gets && |run.states[k].gets[r].responses| >= Count(rl, |replicas|)
      && IsWinner(run.states[k].gets[r].responses, win)
      && !(win.Some? && win.value.id == p.write.id && p.write.hlc.Le(win.value.hlc))
  }

  lemma Snoc(replicas: set<Node>, run: Run, step: Step) returns (more: Run)
    requires IsRun(replicas, run) && Enabled(replicas, run.states[|run.steps|], step)
    ensures IsRun(replicas, more) && run.states <= more.states && |more.steps| == |run.steps| + 1 && more.steps == run.steps + [step]
    ensures
      var s := run.states[|run.steps|];
      s.stores.Keys == replicas && HintsOk(replicas, s) && more.states[|more.steps|] == Do(replicas, s, step)
  {
    RunKeepsInv(replicas, run, |run.steps|);
    var s := run.states[|run.steps|];
    more := Run(run.states + [Do(replicas, s, step)], run.steps + [step]);
    forall i: nat | i < |more.steps| ensures MovesAt(replicas, more, i) {
      if i < |run.steps| { assert MovesAt(replicas, run, i); }
    }
  }

  /** The answers of `ns` as they stand. */
  function AnswersOf(stores: map<Node, Store>, id: u64, ns: set<Node>): map<Node, Option<Write>> {
    map n | n in ns && n in stores :: Version(stores[n], id)
  }

  /** A read that has begun can collect the answers of any set of replicas. */
  lemma {:induction false} ReadFrom(replicas: set<Node>, run: Run, r: nat, ns: set<Node>) returns (more: Run)
    requires IsRun(replicas, run) && ns <= replicas
    requires var s := run.states[|run.steps|]; r in s.gets && s.gets[r].responses == map[]
    ensures IsRun(replicas, more) && run.states <= more.states && run.steps <= more.steps
    ensures forall x: nat | |run.steps| <= x < |more.steps| :: more.steps[x] != ReadEnd(r)
    ensures
      var s, t := run.states[|run.steps|], more.states[|more.steps|];
      t.stores == s.stores && r in t.gets && t.gets[r] == s.gets[r].(responses := AnswersOf(s.stores, s.gets[r].id, ns))
    decreases ns
  {
    if ns == {} {
      more := run;
    } else {
      var n :| n in ns;
      var part := ReadFrom(replicas, run, r, ns - {n});
      ghost var s, u := run.states[|run.steps|], part.states[|part.steps|];
      RunKeepsInv(replicas, run, |run.steps|);
      more := Snoc(replicas, part, ReadOne(r, n));
      assert AnswersOf(s.stores, s.gets[r].id, ns) == AnswersOf(s.stores, s.gets[r].id, ns - {n})[n := Version(s.stores[n], s.gets[r].id)];
    }
  }

  lemma {:induction false} SubsetOfSize(all: set<Node>, k: nat) returns (a: set<Node>)
    requires k <= |all|
    ensures a <= all && |a| == k
  {
    if k == 0 {
      a := {};
    } else {
      var b := SubsetOfSize(all, k - 1);
      assert |all - b| == |all| - |b|;
      var x :| x in all - b;
      a := b + {x};
    }
  }

  /** Why a quorum is a strict majority: it is the least size at which any two sets of
      that many replicas meet. */
  lemma QuorumIsLeastMeeting(all: set<Node>, c: nat)
    requires all != {} && c <= |all|
    ensures (forall a: set<Node>, b: set<Node> | a <= all && b <= all && |a| == |b| == c :: a * b != {}) <==> c >= Count(Quorum, |all|)
  {
    assert |all| >= 1;
    CountIsLeast(Quorum, |all|, c);
    if c >= Count(Quorum, |all|) {
      forall a: set<Node>, b: set<Node> | a <= all && b <= all && |a| == |b| == c ensures a * b != {} {
        SubsetsMeet(a, b, all);
        var x :| x in a && x in b;
        assert x in a * b;
      }
    } else {
      var a := SubsetOfSize(all, c);
      assert |all - a| == |all| - |a|;
      var b := SubsetOfSize(all - a, c);
      assert a * b == {};
    }
  }

  /** A write applied and acknowledged at exactly the replicas of `a`, about to be reported. */
  lemma AckedAt(replicas: set<Node>, a: set<Node>, w: Write, level: Level) returns (s: State)
    requires replicas != {} && a <= replicas
    ensures Reachable(replicas, s) && s.stores == AppliedAt(Start(replicas).stores, a, w) && s.gets == map[]
    ensures s.pending == map[0 := Pending(w, level, 0, {}, a, {})]
  {
    StartReachable(replicas);
    var b := Issued(replicas, Start(replicas), w, level);
    var c := Answers(replicas, b, 0, a);
    s := Hinted(replicas, c, 0, replicas - a);
    assert replicas - a - (replicas - a) == {} && {} + a == a;
  }

  /** Report the write, then read its id from the other replicas. */
  lemma ReadTheOthers(replicas: set<Node>, s: State, b: set<Node>, id: u64, rl: Level) returns (run: Run, i: nat)
    requires Reachable(replicas, s) && b <= replicas && s.gets == map[]
    requires 0 in s.pending && s.pending[0].todo == {} && s.pending[0].unreachable == {}
    ensures IsRun(replicas, run) && i + 2 < |run.steps| && run.states[i] == s
    ensures run.steps[i] == Finish(0) && run.steps[i + 1] == ReadBegin(0, id, rl) && run.steps[|run.steps| - 1] == ReadEnd(0)
    ensures forall x: nat | i + 1 < x < |run.steps| - 1 :: run.steps[x] != ReadEnd(0)
    ensures
      var t := run.states[|run.steps| - 1];
      0 in t.gets && t.gets[0].responses == AnswersOf(s.stores, id, b)
  {
    var r2;
    r2, i := ReportAndBegin(replicas, s, id, rl);
    var r3 := ReadFrom(replicas, r2, 0, b);
    run := Snoc(replicas, r3, ReadEnd(0));
    assert r2.states <= run.states && r2.steps <= run.steps;
    assert run.states[|r3.steps|] == r3.states[|r3.steps|];
    assert forall x: nat | x < i + 2 :: run.steps[x] == r2.steps[x];
    forall x: nat | i + 1 < x < |run.steps| - 1 ensures run.steps[x] != ReadEnd(0) { assert run.steps[x] == r3.steps[x]; }
  }

  lemma ReportAndBegin(replicas: set<Node>, s: State, id: u64, rl: Level) returns (run: Run, i: nat)
    requires Reachable(replicas, s) && s.gets == map[]
    requires 0 in s.pending && s.pending[0].todo == {} && s.pending[0].unreachable == {}
    ensures IsRun(replicas, run) && |run.steps| == i + 2 && run.states[i] == s
    ensures run.steps[i] == Finish(0) && run.steps[i + 1] == ReadBegin(0, id, rl)
    ensures var t := run.states[i + 2]; t.stores == s.stores && 0 in t.gets && t.gets[0] == Read(id, rl, t.acked, map[])
  {
    var r0 :| IsRun(replicas, r0) && r0.states[|r0.steps|] == s;
    i := |r0.steps|;
    var r1 := Snoc(replicas, r0, Finish(0));
    run := Snoc(replicas, r1, ReadBegin(0, id, rl));
  }

  lemma EmptyElsewhere(replicas: set<Node>, a: set<Node>, b: set<Node>, w: Write)
    requires a !! b && b <= replicas
    ensures
      var m := AnswersOf(AppliedAt(Start(replicas).stores, a, w), w.id, b);
      |m| == |b| && IsWinner(m, None)
  {
    var m := AnswersOf(AppliedAt(Start(replicas).stores, a, w), w.id, b);
    assert m.Keys == b && |m| == |m.Keys|;
  }

  /** Levels that do not overlap let a read miss an acknowledged write, for every
      replica set. */
  lemma NoOverlapMisses(replicas: set<Node>, wl: Level, rl: Level, w: Write) returns (run: Run, i: nat, k: nat)
    requires replicas != {} && !Overlap(wl, rl, |replicas|)
    ensures Misses(replicas, wl, rl, run, i, i + 1, k, 0, 0, None)
  {
    var a, b := SplitByLevels(replicas, wl, rl);
    var s := AckedAt(replicas, a, w, wl);
    run, i := ReadTheOthers(replicas, s, b, w.id, rl);
    k := |run.steps| - 1;
    EmptyElsewhere(replicas, a, b, w);
  }

  /** Enough replicas for the write, and enough others for the read. */
  lemma SplitByLevels(replicas: set<Node>, wl: Level, rl: Level) returns (a: set<Node>, b: set<Node>)
    requires replicas != {} && !Overlap(wl, rl, |replicas|)
    ensures a <= replicas && b <= replicas && a !! b && |a| == Count(wl, |replicas|) && |b| >= Count(rl, |replicas|)
  {
    OverlapIff(wl, rl, |replicas|);
    assert |replicas| >= 1;
    a := SubsetOfSize(replicas, Count(wl, |replicas|));
    b := replicas - a;
    assert |b| == |replicas| - |a|;
  }

  /** Read your acknowledged writes, exactly: for every nonempty replica set, no run
      lets a read miss an acknowledged write if and only if the two levels overlap. */
  lemma ReadsSeeAcksIff(replicas: set<Node>, wl: Level, rl: Level)
    requires replicas != {}
    ensures Overlap(wl, rl, |replicas|) <==> !exists run, i, j, k, op, r, win :: Misses(replicas, wl, rl, run, i, j, k, op, r, win)
  {
    if Overlap(wl, rl, |replicas|) {
      if run, i, j, k, op, r, win :| Misses(replicas, wl, rl, run, i, j, k, op, r, win) {
        AcknowledgedWritesAreRead(replicas, run, i, j, k, op, r, rl, win);
      }
    } else {
      var run, i, k := NoOverlapMisses(replicas, wl, rl, Write(0, Hlc(0, 0), false, []));
    }
  }
}
