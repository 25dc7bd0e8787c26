/** Last-writer-wins replica contents: the abstract value of a shard under
    versioned writes (crates/qv-storage/src/shard.rs) and the algebra that hinted
    handoff, read repair and shard transfer rely on (crates/qv-node/src/router.rs). */
module Lww {
  import opened Bytes
  import opened Clocks

  /** A versioned point operation; a tombstone carries an empty vector. */
  datatype Write = Write(id: u64, hlc: Hlc, tombstone: bool, vector: Vector)

  /** The winning write of every id a replica has seen. */
  type Store = map<u64, Write>

  /** A write loses when the stored version is at least as new. */
  predicate IsStale(st: Store, w: Write) { w.id in st && w.hlc.Le(st[w.id].hlc) }

  function Apply(st: Store, w: Write): Store {
    if IsStale(st, w) then st else st[w.id := w]
  }

  function ApplyAll(st: Store, ws: seq<Write>): Store {
    if ws == [] then st else Apply(ApplyAll(st, ws[..|ws| - 1]), ws[|ws| - 1])
  }

  /** The replica holds `w` or something newer for the same id. */
  predicate Covers(st: Store, w: Write) { w.id in st && w.hlc.Le(st[w.id].hlc) }

  /** Everything `a` holds is matched or superseded in `b`. */
  ghost predicate AtLeast(b: Store, a: Store) {
    forall id | id in a :: id in b && a[id].hlc.Le(b[id].hlc)
  }

  /** (id, hlc) determines the write: no two coordinators stamped alike. */
  predicate Functional(ws: set<Write>) {
    forall a, b | a in ws && b in ws && a.id == b.id && a.hlc == b.hlc :: a == b
  }

  /** `st` holds, for every id written in `ws`, one of its newest writes. */
  ghost predicate IsLww(st: Store, ws: set<Write>) {
    && (forall id | id in st :: st[id] in ws && st[id].id == id)
    && (forall w | w in ws :: Covers(st, w))
  }

  lemma LwwUnique(a: Store, b: Store, ws: set<Write>)
    requires Functional(ws) && IsLww(a, ws) && IsLww(b, ws)
    ensures a == b
  {}

  function Elements(ws: seq<Write>): set<Write> { set w | w in ws }

  lemma LwwAfterApply(st: Store, ws: set<Write>, w: Write)
    requires IsLww(st, ws)
    ensures IsLww(Apply(st, w), ws + {w})
  {}

  lemma ElementsSnoc(ws: seq<Write>, w: Write)
    ensures Elements(ws + [w]) == Elements(ws) + {w}
  {}

  lemma UnionAssoc(a: set<Write>, b: set<Write>, c: set<Write>)
    ensures a + (b + c) == a + b + c
  {}

  lemma {:induction false} ApplyAllIsLww(st: Store, seen: set<Write>, ws: seq<Write>)
    requires IsLww(st, seen)
    ensures IsLww(ApplyAll(st, ws), seen + Elements(ws))
    decreases |ws|
  {
    if ws == [] {
      assert seen + Elements(ws) == seen;
    } else {
      var init, last := ws[..|ws| - 1], ws[|ws| - 1];
      ApplyAllIsLww(st, seen, init);
      LwwAfterApply(ApplyAll(st, init), seen + Elements(init), last);
      ElementsSnoc(init, last);
      UnionAssoc(seen, Elements(init), {last});
      assert ws == init + [last];
    }
  }

  /** Delivery order and duplication do not matter. */
  lemma DeliveryOrderIrrelevant(a: seq<Write>, b: seq<Write>)
    requires Elements(a) == Elements(b) && Functional(Elements(a))
    ensures ApplyAll(map[], a) == ApplyAll(map[], b)
  {
    ApplyAllIsLww(map[], {}, a);
    ApplyAllIsLww(map[], {}, b);
    assert {} + Elements(a) == Elements(a) && {} + Elements(b) == Elements(b);
    LwwUnique(ApplyAll(map[], a), ApplyAll(map[], b), Elements(a));
  }

  /** Pointwise newest; on equal stamps the left side stays. */
  function Join(a: Store, b: Store): Store {
    map id | id in a.Keys + b.Keys :: if id in a && (id in b ==> b[id].hlc.Le(a[id].hlc)) then a[id] else b[id]
  }

  lemma JoinIsLww(a: Store, b: Store, wa: set<Write>, wb: set<Write>)
    requires IsLww(a, wa) && IsLww(b, wb)
    ensures IsLww(Join(a, b), wa + wb)
  {}

  /** A store is its own newest-write map: its records replayed anywhere rebuild it. */
  lemma StoreIsLwwOfRecords(st: Store)
    requires forall id | id in st :: st[id].id == id
    ensures IsLww(st, st.Values)
  {}

  lemma ReplayIsJoin(t: Store, s: Store, l: Store, wt: set<Write>, ws: set<Write>, wl: set<Write>, delivered: seq<Write>)
    requires IsLww(t, wt) && IsLww(s, ws) && IsLww(l, wl)
    requires Elements(delivered) == ws + wl && Functional(wt + ws + wl)
    ensures ApplyAll(t, delivered) == Join(Join(t, s), l)
  {
    var all := wt + ws + wl;
    ApplyAllIsLww(t, wt, delivered);
    UnionAssoc(wt, ws, wl);
    JoinIsLww(t, s, wt, ws);
    JoinIsLww(Join(t, s), l, wt + ws, wl);
    LwwUnique(ApplyAll(t, delivered), Join(Join(t, s), l), all);
  }

  /** Shard transfer: whatever order the source's records and the live writes
      reach the target in, it ends at the join of target, source and live writes. */
  lemma PullIsJoin(target: Store, source: Store, live: seq<Write>, delivered: seq<Write>)
    requires forall id | id in target :: target[id].id == id
    requires forall id | id in source :: source[id].id == id
    requires Elements(delivered) == source.Values + Elements(live)
    requires Functional(target.Values + source.Values + Elements(live))
    ensures ApplyAll(target, delivered) == Join(Join(target, source), ApplyAll(map[], live))
  {
    StoreIsLwwOfRecords(target);
    StoreIsLwwOfRecords(source);
    ApplyAllIsLww(map[], {}, live);
    assert {} + Elements(live) == Elements(live);
    ReplayIsJoin(target, source, ApplyAll(map[], live), target.Values, source.Values, Elements(live), delivered);
  }

  /** One delivery: the write takes its id's place exactly when the id is new or held at a
      strictly older stamp, and no other id changes. */
  lemma ApplyIff(st: Store, w: Write, id: u64)
    ensures id != w.id ==> (id in Apply(st, w) <==> id in st) && (id in st ==> Apply(st, w)[id] == st[id])
    ensures w.id in st && w.hlc.Le(st[w.id].hlc) ==> Apply(st, w) == st
    ensures w.id !in st || st[w.id].hlc.Lt(w.hlc) ==> w.id in Apply(st, w) && Apply(st, w)[w.id] == w
  {}

  /** A replica only ever moves forward. */
  lemma ApplyMovesForward(st: Store, w: Write)
    ensures AtLeast(Apply(st, w), st) && Covers(Apply(st, w), w)
  {}

  lemma CoversMonotone(a: Store, b: Store, w: Write)
    requires Covers(a, w) && AtLeast(b, a)
    ensures Covers(b, w)
  {}
}
