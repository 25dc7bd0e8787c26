/** Where hinted handoff falls short of "never lost": `replay_hints` reads the log
    and rewrites it under two separate lock acquisitions
    (crates/qv-node/src/router.rs, crates/qv-node/src/node_state.rs), and a write
    whose coordinator stops before hinting is not repaired by anyone. */
module HintRace {
  import opened Bytes
  import opened Clocks
  import opened Lww
  import opened Replication
  import opened Convergence

  /** Replay as the code locks it: the first `k` hints of holder `h` were read, the
      rest were buffered while those were being pushed, then the log is overwritten
      with the unpushed ones among the first `k`. An empty read returns early. */
  function SplitReplay(s: State, h: Node, k: nat, ok: seq<bool>): State
    requires k <= |HintsAt(s, h)| && |ok| == k && forall i | 0 <= i < k :: HintsAt(s, h)[i].target in s.stores
  {
    if k == 0 then s
    else
      var (st, keep) := PushHints(s.stores, HintsAt(s, h)[..k], ok);
      s.(stores := st, hints := s.hints[h := keep])
  }

  /** Some hint of the log that equals `x` was not pushed. */
  ghost predicate Unpushed(hs: seq<Hint>, ok: seq<bool>, x: Hint)
    requires |hs| == |ok|
  {
    exists i :: 0 <= i < |hs| && !ok[i] && hs[i] == x
  }

  /** Some pushed hint carries a write to the same point at the same replica, at least as new. */
  ghost predicate Overtaken(hs: seq<Hint>, ok: seq<bool>, x: Hint)
    requires |hs| == |ok|
  {
    exists i :: 0 <= i < |hs| && ok[i] && hs[i].target == x.target && hs[i].write.id == x.write.id && x.write.hlc.Le(hs[i].write.hlc)
  }

  /** A hint buffered during the pass is redundant: its target had caught up before the
      pass, a read copy of it was not pushed, a read hint that was pushed overtakes it,
      or another node holds it. */
  ghost predicate Redundant(s: State, h: Node, k: nat, ok: seq<bool>, x: Hint)
    requires k <= |HintsAt(s, h)| && |ok| == k && x.target in s.stores
  {
    var read := HintsAt(s, h)[..k];
    || Covers(s.stores[x.target], x.write)
    || Unpushed(read, ok, x)
    || Overtaken(read, ok, x)
    || exists g :: g != h && g in s.hints && x in s.hints[g]
  }

  /** What a pass keeps, told from the log and the outcomes alone. */
  lemma {:induction false} KeptIff(stores: map<Node, Store>, hs: seq<Hint>, ok: seq<bool>, x: Hint)
    requires |hs| == |ok| && forall i | 0 <= i < |hs| :: hs[i].target in stores
    ensures x in PushHints(stores, hs, ok).1 <==> Unpushed(hs, ok, x)
    decreases |hs|
  {
    if hs != [] {
      var n := |hs| - 1;
      KeptIff(stores, hs[..n], ok[..n], x);
      UnpushedSnoc(hs, ok, x);
    }
  }

  lemma UnpushedSnoc(hs: seq<Hint>, ok: seq<bool>, x: Hint)
    requires |hs| == |ok| > 0
    ensures var n := |hs| - 1; Unpushed(hs, ok, x) <==> Unpushed(hs[..n], ok[..n], x) || (!ok[n] && hs[n] == x)
  {
    var n := |hs| - 1;
    if Unpushed(hs[..n], ok[..n], x) {
      var i :| 0 <= i < n && !ok[..n][i] && hs[..n][i] == x;
      assert !ok[i] && hs[i] == x;
    }
    if Unpushed(hs, ok, x) {
      var i :| 0 <= i < |hs| && !ok[i] && hs[i] == x;
      if i < n { assert !ok[..n][i] && hs[..n][i] == x; }
    }
  }

  /** Which writes a replica covers after a pass, told the same way. */
  lemma {:induction false} CoveredIff(stores: map<Node, Store>, hs: seq<Hint>, ok: seq<bool>, x: Hint)
    requires |hs| == |ok| && x.target in stores && forall i | 0 <= i < |hs| :: hs[i].target in stores
    ensures Covers(PushHints(stores, hs, ok).0[x.target], x.write) <==> Covers(stores[x.target], x.write) || Overtaken(hs, ok, x)
    decreases |hs|
  {
    if hs != [] {
      var n := |hs| - 1;
      CoveredIff(stores, hs[..n], ok[..n], x);
      OvertakenSnoc(hs, ok, x);
    }
  }

  lemma OvertakenSnoc(hs: seq<Hint>, ok: seq<bool>, x: Hint)
    requires |hs| == |ok| > 0
    ensures
      var n := |hs| - 1;
      Overtaken(hs, ok, x) <==>
      Overtaken(hs[..n], ok[..n], x) || (ok[n] && hs[n].target == x.target && hs[n].write.id == x.write.id && x.write.hlc.Le(hs[n].write.hlc))
  {
    var n := |hs| - 1;
    if Overtaken(hs[..n], ok[..n], x) {
      var i :| 0 <= i < n && ok[..n][i] && hs[..n][i].target == x.target && hs[..n][i].write.id == x.write.id && x.write.hlc.Le(hs[..n][i].write.hlc);
      assert ok[i] && hs[i] == hs[..n][i];
    }
    if Overtaken(hs, ok, x) {
      var i :| 0 <= i < |hs| && ok[i] && hs[i].target == x.target && hs[i].write.id == x.write.id && x.write.hlc.Le(hs[i].write.hlc);
      if i < n { assert ok[..n][i] && hs[..n][i] == hs[i]; }
    }
  }

  /** After the split replay a write is covered or hinted at its target exactly when the
      inputs say so. */
  lemma SafeAfterSplitIff(s: State, h: Node, k: nat, ok: seq<bool>, x: Hint)
    requires 0 < k <= |HintsAt(s, h)| && |ok| == k && forall i | 0 <= i < k :: HintsAt(s, h)[i].target in s.stores
    requires x.target in s.stores
    ensures Safe(SplitReplay(s, h, k, ok), x.target, x.write) <==> Redundant(s, h, k, ok, x)
  {
    var t, read := SplitReplay(s, h, k, ok), HintsAt(s, h)[..k];
    KeptIff(s.stores, read, ok, x);
    CoveredIff(s.stores, read, ok, x);
    assert x == Hint(x.target, x.write);
    if HintPending(t, x.target, x.write) {
      var g :| g in t.hints && x in t.hints[g];
      if g != h { assert g in s.hints && x in s.hints[g]; }
    }
    if g :| g != h && g in s.hints && x in s.hints[g] { assert g in t.hints && x in t.hints[g]; }
    if Unpushed(read, ok, x) { assert x in t.hints[h]; }
  }

  /** A hint that was read is either pushed or kept. */
  lemma ReadIsRedundant(s: State, h: Node, k: nat, ok: seq<bool>, i: nat)
    requires k <= |HintsAt(s, h)| && |ok| == k && i < k && HintsAt(s, h)[i].target in s.stores
    ensures Redundant(s, h, k, ok, HintsAt(s, h)[i])
  {
    var read := HintsAt(s, h)[..k];
    assert read[i] == HintsAt(s, h)[i];
  }

  /** Exactly when the split replay endangers no hinted write: nothing was read, or
      every hint buffered during the pass is redundant. */
  lemma SplitReplaySafeIff(replicas: set<Node>, s: State, h: Node, k: nat, ok: seq<bool>)
    requires Inv(replicas, s) && k <= |HintsAt(s, h)| && |ok| == k
    ensures forall i | 0 <= i < |HintsAt(s, h)| :: HintsAt(s, h)[i].target in s.stores
    ensures SplitReplay(s, h, k, ok).stores.Keys == s.stores.Keys
    ensures
      var t := SplitReplay(s, h, k, ok);
      (forall n, w | n in replicas && HintPending(s, n, w) :: Safe(t, n, w)) <==>
      (k == 0 || forall i | k <= i < |HintsAt(s, h)| :: Redundant(s, h, k, ok, HintsAt(s, h)[i]))
  {
    var t, hs := SplitReplay(s, h, k, ok), HintsAt(s, h);
    if k == 0 { return; }
    if forall n, w | n in replicas && HintPending(s, n, w) :: Safe(t, n, w) {
      forall i | k <= i < |hs| ensures Redundant(s, h, k, ok, hs[i]) {
        assert hs[i] == Hint(hs[i].target, hs[i].write) && hs[i] in s.hints[h];
        assert HintPending(s, hs[i].target, hs[i].write);
        SafeAfterSplitIff(s, h, k, ok, hs[i]);
      }
    }
    if forall i | k <= i < |hs| :: Redundant(s, h, k, ok, hs[i]) {
      forall n, w | n in replicas && HintPending(s, n, w) ensures Safe(t, n, w) {
        PendingStaysSafe(s, h, k, ok, Hint(n, w));
      }
    }
  }

  lemma PendingStaysSafe(s: State, h: Node, k: nat, ok: seq<bool>, x: Hint)
    requires 0 < k <= |HintsAt(s, h)| && |ok| == k && forall i | 0 <= i < |HintsAt(s, h)| :: HintsAt(s, h)[i].target in s.stores
    requires forall i | k <= i < |HintsAt(s, h)| :: Redundant(s, h, k, ok, HintsAt(s, h)[i])
    requires x.target in s.stores && HintPending(s, x.target, x.write)
    ensures Safe(SplitReplay(s, h, k, ok), x.target, x.write)
  {
    var g :| g in s.hints && Hint(x.target, x.write) in s.hints[g];
    if g == h {
      var i :| 0 <= i < |s.hints[h]| && s.hints[h][i] == x;
      if i < k { ReadIsRedundant(s, h, k, ok, i); }
    }
    SafeAfterSplitIff(s, h, k, ok, x);
  }

  /** The whole pass is one step of the protocol when nothing was buffered meanwhile. */
  lemma UndisturbedReplayIsAtomic(replicas: set<Node>, s: State, h: Node, ok: seq<bool>)
    requires Inv(replicas, s) && 0 < |ok| == |HintsAt(s, h)|
    ensures forall i | 0 <= i < |HintsAt(s, h)| :: HintsAt(s, h)[i].target in s.stores
    ensures SplitReplay(s, h, |ok|, ok) == Do(replicas, s, Replay(h, ok))
  {
    assert HintsAt(s, h)[..|ok|] == HintsAt(s, h);
  }

  // ---- concrete failures ----------------------------------------------------

  function Point(id: u64): Write { Write(id, Hlc(1, 0), false, []) }

  function Pair(): set<Node> { {1, 2} }

  /** Node 1 coordinates and acknowledges `w` at ONE while node 2 does not answer. */
  function AfterHinted(s: State, w: Write): State
    requires s.stores.Keys == Pair()
  {
    s.(stores := s.stores[1 := Apply(s.stores[1], w)], hints := s.hints[1 := HintsAt(s, 1) + [Hint(2, w)]],
       issued := s.issued + {w}, acked := s.acked + {Ack(w, One, {1})})
  }

  /** `w` was issued at node 1 and applied there; node 2 did not answer. */
  function HalfWritten(s: State, w: Write): State
    requires s.stores.Keys == Pair()
  {
    s.(stores := s.stores[1 := Apply(s.stores[1], w)], issued := s.issued + {w},
       pending := map[0 := Pending(w, One, 1, {}, {1}, {2})])
  }

  lemma HalfWrittenReachable(s: State, w: Write)
    requires Reachable(Pair(), s) && s.stores.Keys == Pair() && s.pending == map[] && Functional(s.issued + {w})
    ensures Reachable(Pair(), HalfWritten(s, w))
  {
    AnsweredReachable(s, w);
    var b := HalfWritten(s, w).(pending := map[0 := Pending(w, One, 1, {2}, {1}, {})]);
    assert {2} - {2} == {} && {} + {2} == {2};
    TakeStep(b, Fail(0, 2), HalfWritten(s, w));
  }

  lemma AnsweredReachable(s: State, w: Write)
    requires Reachable(Pair(), s) && s.stores.Keys == Pair() && s.pending == map[] && Functional(s.issued + {w})
    ensures Reachable(Pair(), HalfWritten(s, w).(pending := map[0 := Pending(w, One, 1, {2}, {1}, {})]))
  {
    var a := s.(issued := s.issued + {w}, pending := map[0 := Pending(w, One, 1, {1, 2}, {}, {})]);
    TakeStep(s, Issue(0, 1, w, One), a);
    assert {1, 2} - {1} == {2} && {} + {1} == {1};
    TakeStep(a, Answer(0, 1), HalfWritten(s, w).(pending := map[0 := Pending(w, One, 1, {2}, {1}, {})]));
  }

  lemma HintedWriteReachable(s: State, w: Write)
    requires Reachable(Pair(), s) && s.stores.Keys == Pair() && s.pending == map[] && Functional(s.issued + {w})
    ensures Reachable(Pair(), AfterHinted(s, w))
  {
    HalfWrittenReachable(s, w);
    var c := HalfWritten(s, w);
    assert c.stores.Keys == Pair() && {2} - {2} == {};
    var d := c.(hints := c.hints[1 := HintsAt(c, 1) + [Hint(2, w)]], pending := map[0 := Pending(w, One, 1, {}, {1}, {})]);
    TakeStep(c, Buffer(0, 2), d);
    assert d.pending - {0} == map[];
    TakeStep(d, Finish(0), AfterHinted(s, w));
  }

  lemma TakeStep(s: State, step: Step, t: State)
    requires Reachable(Pair(), s) && s.stores.Keys == Pair() && Enabled(Pair(), s, step)
    requires HintsOk(Pair(), s) ==> Do(Pair(), s, step) == t
    ensures Reachable(Pair(), t)
  {
    ReachableStep(Pair(), s, step);
  }

  /** Two writes at ONE, both hinted for node 2. */
  function TwoHints(): State {
    State(map[1 := map[7 := Point(7), 8 := Point(8)], 2 := map[]], map[1 := [Hint(2, Point(7)), Hint(2, Point(8))]],
          {Point(7), Point(8)}, map[], {Ack(Point(7), One, {1}), Ack(Point(8), One, {1})}, {}, map[])
  }

  function OneHint(): State {
    State(map[1 := map[7 := Point(7)], 2 := map[]], map[1 := [Hint(2, Point(7))]], {Point(7)}, map[], {Ack(Point(7), One, {1})}, {}, map[])
  }

  lemma HintsOneByOne()
    ensures Start(Pair()).stores.Keys == Pair() && OneHint().stores.Keys == Pair()
    ensures AfterHinted(Start(Pair()), Point(7)) == OneHint() && AfterHinted(OneHint(), Point(8)) == TwoHints()
  {
    assert Start(Pair()).stores == map[1 := map[], 2 := map[]];
    assert Apply(map[], Point(7)) == map[7 := Point(7)];
    assert [] + [Hint(2, Point(7))] == [Hint(2, Point(7))];
    assert [Hint(2, Point(7))] + [Hint(2, Point(8))] == [Hint(2, Point(7)), Hint(2, Point(8))];
    assert Apply(map[7 := Point(7)], Point(8)) == map[7 := Point(7), 8 := Point(8)];
  }

  lemma TwoHintsReachable()
    ensures Reachable(Pair(), TwoHints())
  {
    HintsOneByOne();
    StartReachable(Pair());
    HintedWriteReachable(Start(Pair()), Point(7));
    HintedWriteReachable(OneHint(), Point(8));
  }

  /** A hint buffered while another was being replayed is dropped: hint logs are empty
      and nothing is in flight or abandoned, yet an acknowledged write is missing at
      node 2. */
  lemma ReplayCanLoseHint()
    ensures Reachable(Pair(), TwoHints())
    ensures HintsAt(TwoHints(), 1) == [Hint(2, Point(7)), Hint(2, Point(8))] && TwoHints().stores.Keys == Pair()
    ensures
      var t := SplitReplay(TwoHints(), 1, 1, [true]);
      && Quiescent(t) && t.stores.Keys == Pair()
      && Ack(Point(8), One, {1}) in t.acked && 8 in t.stores[1] && 8 !in t.stores[2]
  {
    TwoHintsReachable();
    var hs := [Hint(2, Point(7)), Hint(2, Point(8))];
    assert hs[..1] == [hs[0]];
    OnePush(TwoHints().stores, hs[0]);
  }

  lemma OnePush(stores: map<Node, Store>, x: Hint)
    requires x.target in stores
    ensures PushHints(stores, [x], [true]) == (stores[x.target := Apply(stores[x.target], x.write)], [])
  {}

  /** A coordinator that stops before buffering its hints leaves replicas apart with empty
      hint logs, until a later write of the id is finished. */
  lemma AbandonedWriteDiverges() returns (s: State)
    ensures Reachable(Pair(), s) && s.stores.Keys == Pair()
    ensures s.pending == map[] && s.hints == map[] && 7 in s.stores[1] && 7 !in s.stores[2]
  {
    StartReachable(Pair());
    HalfWrittenReachable(Start(Pair()), Point(7));
    var b := HalfWritten(Start(Pair()), Point(7));
    s := b.(pending := map[], abandoned := {Point(7)});
    assert b.pending - {0} == map[] && b.stores.Keys == Pair();
    TakeStep(b, Abandon(0), s);
  }
}
