/** Hybrid logical clock stamps and the monotonic generator (crates/qv-storage/src/hlc.rs). */
module Clocks {
  import opened Bytes

  datatype Hlc = Hlc(wall: u48, counter: u16) {
    /** The derived `Ord`: lexicographic on (wall, counter). */
    predicate Le(o: Hlc) { wall < o.wall || (wall == o.wall && counter <= o.counter) }
    predicate Lt(o: Hlc) { wall < o.wall || (wall == o.wall && counter < o.counter) }

    function Pack(): u64 { wall * U16 + counter }
  }

  const ZERO := Hlc(0, 0)
  const LAST := Hlc(U48 - 1, U16 - 1)

  /** `Hlc::new`: the wall part is masked to 48 bits. */
  function New(wall: nat, counter: u16): Hlc { Hlc(wall % U48, counter) }

  function Unpack(v: u64): Hlc { Hlc(v / U16, v % U16) }

  lemma PackIsOrderIsomorphism(a: Hlc, b: Hlc, v: u64)
    ensures Unpack(a.Pack()) == a
    ensures Unpack(v).Pack() == v
    ensures a.Le(b) <==> a.Pack() <= b.Pack()
    ensures a.Lt(b) <==> a.Pack() < b.Pack()
  {}

  function Max(a: Hlc, b: Hlc): Hlc { if a.Le(b) then b else a }

  function SaturatingInc(c: u16): u16 { if c == U16 - 1 then c else c + 1 }

  /** The stamp `HlcClock::now` issues from `last` when the wall clock reads `wall`. */
  function NextNow(last: Hlc, wall: u48): Hlc {
    if wall > last.wall then New(wall, 0)
    else if last.counter < U16 - 1 then New(last.wall, last.counter + 1)
    else New(last.wall + 1, 0)
  }

  /** The stamp `HlcClock::update` issues on receiving `remote`. */
  function NextUpdate(last: Hlc, wall: u48, remote: Hlc): Hlc {
    var w0 := if wall < last.wall then last.wall else wall;
    var maxWall := if w0 < remote.wall then remote.wall else w0;
    if maxWall == last.wall && maxWall == remote.wall then
      New(maxWall, SaturatingInc(if last.counter < remote.counter then remote.counter else last.counter))
    else if maxWall == last.wall then New(maxWall, SaturatingInc(last.counter))
    else if maxWall == remote.wall then New(maxWall, SaturatingInc(remote.counter))
    else New(maxWall, 0)
  }

  /** `now` strictly increases in every state but the very last stamp, where the
      carry into the wall part wraps to zero; it never skips a stamp it need not. */
  lemma NowIncreasesUnlessExhausted(last: Hlc, wall: u48)
    ensures last.Lt(NextNow(last, wall)) <==> last != LAST
    ensures last != LAST ==> NextNow(last, wall).wall >= wall
    ensures forall t: Hlc :: last.Lt(t) && wall <= t.wall ==> NextNow(last, wall).Le(t)
  {}

  /** `update` never moves the clock backwards and never below the remote stamp.
      It exceeds both, as its documentation says, exactly when the wall clock is
      ahead of both or the larger of the two still has room in its counter. */
  lemma UpdateDominatesUnlessSaturated(last: Hlc, wall: u48, remote: Hlc)
    ensures Max(last, remote).Le(NextUpdate(last, wall, remote))
    ensures last.Lt(NextUpdate(last, wall, remote)) && remote.Lt(NextUpdate(last, wall, remote))
            <==> wall > Max(last, remote).wall || Max(last, remote).counter < U16 - 1
  {}

  /** `update` jumps no further than it must: where it can exceed both stamps it issues the
      least stamp that does and is not behind the wall; where it cannot, it issues the
      larger of the two itself. */
  lemma UpdateIsLeast(last: Hlc, wall: u48, remote: Hlc)
    ensures
      var r, m := NextUpdate(last, wall, remote), Max(last, remote);
      if wall > m.wall || m.counter < U16 - 1 then
        wall <= r.wall && forall t: Hlc :: last.Lt(t) && remote.Lt(t) && wall <= t.wall ==> r.Le(t)
      else r == m
  {}

  lemma SaturatedUpdateDoesNotExceedRemote()
    ensures !Hlc(7, U16 - 1).Lt(NextUpdate(ZERO, 0, Hlc(7, U16 - 1)))
  {}

  /** One call on a node's clock, with the wall reading it observed. */
  datatype Event = Now(wall: u48) | Update(wall: u48, remote: Hlc) {
    function Issue(last: Hlc): Hlc {
      match this case Now(w) => NextNow(last, w) case Update(w, r) => NextUpdate(last, w, r)
    }
  }

  /** The clock after a run, starting from a fresh clock. */
  function After(es: seq<Event>): Hlc
    decreases |es|
  {
    if es == [] then ZERO else es[|es| - 1].Issue(After(es[..|es| - 1]))
  }

  /** The stamp returned by the `i`-th call of a run. */
  function StampAt(es: seq<Event>, i: nat): Hlc
    requires i < |es|
  {
    After(es[..i + 1])
  }

  /** No call found the clock at the last representable stamp. */
  ghost predicate NeverExhausted(es: seq<Event>) {
    forall i | 0 <= i < |es| :: After(es[..i]) != LAST
  }

  /** The clock bounds every stamp it has issued and every stamp it has received. */
  lemma {:induction false} ClockDominatesHistory(es: seq<Event>, i: nat)
    requires i < |es| && NeverExhausted(es)
    ensures StampAt(es, i).Le(After(es))
    ensures es[i].Update? ==> es[i].remote.Le(After(es))
    decreases |es|
  {
    var n := |es| - 1;
    var init := es[..n];
    assert NeverExhausted(init) by {
      forall j | 0 <= j < |init| ensures After(init[..j]) != LAST { assert init[..j] == es[..j]; }
    }
    assert After(es) == es[n].Issue(After(init));
    assert es[..n] == init;
    if es[n].Now? { NowIncreasesUnlessExhausted(After(init), es[n].wall); }
    else { UpdateDominatesUnlessSaturated(After(init), es[n].wall, es[n].remote); }
    if i < n {
      assert init[..i + 1] == es[..i + 1];
      ClockDominatesHistory(init, i);
    } else {
      assert es[..i + 1] == es;
    }
  }

  /** Over any interleaving of calls and any wall readings, even backward ones,
      a stamp from `now` exceeds every earlier stamp issued here and every remote
      stamp received before it. */
  lemma NowExceedsAllEarlier(es: seq<Event>, i: nat, j: nat)
    requires i < j < |es| && es[j].Now? && NeverExhausted(es)
    ensures StampAt(es, i).Lt(StampAt(es, j))
    ensures es[i].Update? ==> es[i].remote.Lt(StampAt(es, j))
  {
    var before := es[..j];
    assert NeverExhausted(before) by {
      forall k | 0 <= k < |before| ensures After(before[..k]) != LAST { assert before[..k] == es[..k]; }
    }
    assert before[..i + 1] == es[..i + 1];
    ClockDominatesHistory(before, i);
    assert es[..j + 1][..j] == before;
    assert StampAt(es, j) == NextNow(After(before), es[j].wall);
    NowIncreasesUnlessExhausted(After(before), es[j].wall);
  }

  /** A caller can rule exhaustion out beforehand: each call moves the wall part at
      most one past everything it has seen, so a run of `n` calls whose wall readings
      and remote stamps stay `n` below the 48-bit limit never exhausts the clock. */
  lemma IssueRaisesWallByOne(last: Hlc, e: Event, bound: nat)
    requires last.wall <= bound && e.wall <= bound && (e.Update? ==> e.remote.wall <= bound) && bound < U48 - 1
    ensures e.Issue(last).wall <= bound + 1
  {}

  lemma {:induction false} BoundedWallsBoundClock(es: seq<Event>, bound: u48)
    requires forall i | 0 <= i < |es| :: es[i].wall <= bound && (es[i].Update? ==> es[i].remote.wall <= bound)
    requires bound + |es| < U48 - 1
    ensures After(es).wall <= bound + |es|
    decreases |es|
  {
    if es != [] {
      var n := |es| - 1;
      BoundedWallsBoundClock(es[..n], bound);
      IssueRaisesWallByOne(After(es[..n]), es[n], bound + n);
    }
  }

  lemma BoundedWallsNeverExhaust(es: seq<Event>, bound: u48)
    requires forall i | 0 <= i < |es| :: es[i].wall <= bound && (es[i].Update? ==> es[i].remote.wall <= bound)
    requires bound + |es| < U48 - 1
    ensures NeverExhausted(es)
  {
    forall i | 0 <= i < |es| ensures After(es[..i]) != LAST { BoundedWallsBoundClock(es[..i], bound); }
  }

  class HlcClock {
    var last: Hlc

    constructor ()
      ensures last == ZERO
    {
      last := ZERO;
    }

    /** Issue the next stamp; the wall clock reading is an input. */
    method Now(wall: u48) returns (next: Hlc)
      modifies this
      ensures next == last == NextNow(old(last), wall)
    {
      if wall > last.wall {
        next := New(wall, 0);
      } else if last.counter + 1 < U16 {
        next := New(last.wall, last.counter + 1);
      } else {
        next := New(last.wall + 1, 0);
      }
      last := next;
    }

    method Update(wall: u48, remote: Hlc) returns (next: Hlc)
      modifies this
      ensures next == last == NextUpdate(old(last), wall, remote)
    {
      var maxWall := wall;
      if maxWall < last.wall { maxWall := last.wall; }
      if maxWall < remote.wall { maxWall := remote.wall; }
      if maxWall == last.wall && maxWall == remote.wall {
        var c := if last.counter < remote.counter then remote.counter else last.counter;
        next := New(maxWall, SaturatingInc(c));
      } else if maxWall == last.wall {
        next := New(maxWall, SaturatingInc(last.counter));
      } else if maxWall == remote.wall {
        next := New(maxWall, SaturatingInc(remote.counter));
      } else {
        next := New(maxWall, 0);
      }
      last := next;
    }
  }
}
