/** The exact brute-force index, the recall oracle (crates/qv-hnsw/src/index.rs). */
module BruteForce {
  import opened Bytes
  import opened TopK

  type Metric = (Vector, Vector) -> int

  /** Every stored point with its distance from the query. */
  function Scores(metric: Metric, view: map<u64, Vector>, query: Vector): set<Hit> {
    set id | id in view :: Hit(id, metric(query, view[id]))
  }

  lemma {:induction false} ScoresSize(metric: Metric, view: map<u64, Vector>, query: Vector)
    ensures |Scores(metric, view, query)| == |view|
    decreases |view|
  {
    if view.Keys != {} {
      var id :| id in view;
      var rest := view - {id};
      assert rest.Keys == view.Keys - {id};
      ScoresSize(metric, rest, query);
      var h := Hit(id, metric(query, view[id]));
      forall x ensures x in Scores(metric, view, query) <==> x in Scores(metric, rest, query) || x == h {
        if x in Scores(metric, view, query) && x != h {
          var i :| i in view && x == Hit(i, metric(query, view[i]));
          assert i in rest && rest[i] == view[i];
        }
        if x in Scores(metric, rest, query) {
          var i :| i in rest && x == Hit(i, metric(query, rest[i]));
          assert i in view && rest[i] == view[i];
        }
      }
      assert Scores(metric, view, query) == Scores(metric, rest, query) + {h};
    }
  }

  // ---- row-major storage ----------------------------------------------------

  function Row(vs: seq<F32>, dim: nat, s: nat): Vector
    requires (s + 1) * dim <= |vs|
  {
    assert s * dim <= (s + 1) * dim;
    vs[s * dim..(s + 1) * dim]
  }

  lemma RowInBounds(dim: nat, s: nat, n: nat)
    requires s < n
    ensures s * dim + dim == (s + 1) * dim <= n * dim
  {}

  function WriteRow(vs: seq<F32>, dim: nat, s: nat, v: Vector): (r: seq<F32>)
    requires |v| == dim && (s + 1) * dim <= |vs|
    ensures |r| == |vs|
  {
    assert s * dim + dim == (s + 1) * dim;
    vs[..s * dim] + v + vs[(s + 1) * dim..]
  }

  /** Overwriting one stretch of a sequence, read back at the same or a disjoint place. */
  lemma OverwriteAt(vs: seq<F32>, a: nat, b: nat, v: Vector)
    requires a + |v| <= |vs| && b + |v| <= |vs| && (a == b || a + |v| <= b || b + |v| <= a)
    ensures (vs[..a] + v + vs[a + |v|..])[b..b + |v|] == if a == b then v else vs[b..b + |v|]
  {}

  /** Rows never overlap: writing one changes that row and no other. */
  lemma RowsIndependent(vs: seq<F32>, dim: nat, n: nat, s: nat, t: nat, v: Vector)
    requires |vs| == n * dim && s < n && t < n && |v| == dim
    ensures (s + 1) * dim <= |vs| && (t + 1) * dim <= |vs|
    ensures Row(WriteRow(vs, dim, s, v), dim, t) == if t == s then v else Row(vs, dim, t)
  {
    RowInBounds(dim, s, n);
    RowInBounds(dim, t, n);
    if t < s { RowInBounds(dim, t, s); }
    if s < t { RowInBounds(dim, s, t); }
    OverwriteAt(vs, s * dim, t * dim, v);
    if s * dim == t * dim && s != t { assert dim == 0; }
  }

  lemma AppendRow(vs: seq<F32>, dim: nat, n: nat, t: nat, v: Vector)
    requires |vs| == n * dim && t <= n && |v| == dim
    ensures |vs + v| == (n + 1) * dim && (t + 1) * dim <= |vs + v|
    ensures t < n ==> (t + 1) * dim <= |vs| && Row(vs + v, dim, t) == Row(vs, dim, t)
    ensures t == n ==> Row(vs + v, dim, t) == v
  {
    RowInBounds(dim, n, n + 1);
    RowInBounds(dim, t, n + 1);
    if t < n { RowInBounds(dim, t, n); }
  }

  /** The storage as a list of rows. */
  ghost function Rows(vs: seq<F32>, dim: nat, n: nat): (rows: seq<Vector>)
    requires |vs| == n * dim
    ensures |rows| == n
  {
    seq(n, s requires 0 <= s < n => RowAt(vs, dim, n, s))
  }

  function RowAt(vs: seq<F32>, dim: nat, n: nat, s: nat): Vector
    requires |vs| == n * dim && s < n
  {
    RowInBounds(dim, s, n);
    Row(vs, dim, s)
  }

  lemma WriteRowRows(vs: seq<F32>, dim: nat, n: nat, s: nat, v: Vector)
    requires |vs| == n * dim && s < n && |v| == dim
    ensures (s + 1) * dim <= |vs| && Rows(WriteRow(vs, dim, s, v), dim, n) == Rows(vs, dim, n)[s := v]
  {
    RowInBounds(dim, s, n);
    forall t | 0 <= t < n ensures RowAt(WriteRow(vs, dim, s, v), dim, n, t) == Rows(vs, dim, n)[s := v][t] {
      RowsIndependent(vs, dim, n, s, t, v);
    }
  }

  lemma AppendRowRows(vs: seq<F32>, dim: nat, n: nat, v: Vector)
    requires |vs| == n * dim && |v| == dim
    ensures |vs + v| == (n + 1) * dim && Rows(vs + v, dim, n + 1) == Rows(vs, dim, n) + [v]
  {
    AppendRow(vs, dim, n, n, v);
    forall t | 0 <= t <= n ensures RowAt(vs + v, dim, n + 1, t) == (Rows(vs, dim, n) + [v])[t] { AppendRow(vs, dim, n, t, v); }
  }

  // ---- the slot table -------------------------------------------------------

  datatype Slots = Slots(ids: seq<Option<u64>>, idToSlot: map<u64, nat>, freeSlots: seq<nat>, live: nat) {
    /** Occupied and free slots partition the table, the free list has no
        duplicates, the id map and the slots agree, and `live` counts the ids. */
    ghost predicate Ok() {
      && (forall id | id in idToSlot :: idToSlot[id] < |ids| && ids[idToSlot[id]] == Some(id))
      && (forall s | 0 <= s < |ids| && ids[s].Some? :: ids[s].value in idToSlot && idToSlot[ids[s].value] == s)
      && (forall i | 0 <= i < |freeSlots| :: freeSlots[i] < |ids| && ids[freeSlots[i]].None?)
      && (forall i, j | 0 <= i < j < |freeSlots| :: freeSlots[i] != freeSlots[j])
      && (forall s | 0 <= s < |ids| && ids[s].None? :: s in freeSlots)
      && live == |idToSlot|
    }

    ghost function Pick(rows: seq<Vector>): map<u64, Vector>
      requires Ok() && |rows| == |ids|
    {
      map id | id in idToSlot :: rows[idToSlot[id]]
    }

    function Reuse(id: u64): Slots
      requires freeSlots != [] && freeSlots[|freeSlots| - 1] < |ids|
    {
      var n := |freeSlots| - 1;
      Slots(ids[freeSlots[n] := Some(id)], idToSlot[id := freeSlots[n]], freeSlots[..n], live + 1)
    }

    function Grow(id: u64): Slots { Slots(ids + [Some(id)], idToSlot[id := |ids|], freeSlots, live + 1) }

    function Free(id: u64): Slots
      requires id in idToSlot && idToSlot[id] < |ids| && live > 0
    {
      Slots(ids[idToSlot[id] := None], idToSlot - {id}, freeSlots + [idToSlot[id]], live - 1)
    }
  }

  lemma ReuseOk(t: Slots, id: u64, rows: seq<Vector>, v: Vector)
    requires t.Ok() && id !in t.idToSlot && t.freeSlots != [] && |rows| == |t.ids|
    ensures t.Reuse(id).Ok()
    ensures t.Reuse(id).Pick(rows[t.freeSlots[|t.freeSlots| - 1] := v]) == t.Pick(rows)[id := v]
  {
    assert t.Reuse(id).Ok() by { ReusePartition(t, id); }
    ReusePick(t, id, rows, v);
  }

  lemma ReusePick(t: Slots, id: u64, rows: seq<Vector>, v: Vector)
    requires t.Ok() && id !in t.idToSlot && t.freeSlots != [] && |rows| == |t.ids| && t.Reuse(id).Ok()
    ensures t.Reuse(id).Pick(rows[t.freeSlots[|t.freeSlots| - 1] := v]) == t.Pick(rows)[id := v]
  {}

  lemma ReusePartition(t: Slots, id: u64)
    requires t.Ok() && id !in t.idToSlot && t.freeSlots != []
    ensures forall s | 0 <= s < |t.ids| && t.Reuse(id).ids[s].None? :: s in t.Reuse(id).freeSlots
  {}

  lemma GrowOk(t: Slots, id: u64, rows: seq<Vector>, v: Vector)
    requires t.Ok() && id !in t.idToSlot && t.freeSlots == [] && |rows| == |t.ids|
    ensures t.Grow(id).Ok()
    ensures t.Grow(id).Pick(rows + [v]) == t.Pick(rows)[id := v]
  {
    GrowTable(t, id);
    GrowPick(t, id, rows, v);
  }

  lemma GrowTable(t: Slots, id: u64)
    requires t.Ok() && id !in t.idToSlot && t.freeSlots == []
    ensures t.Grow(id).Ok()
  {}

  lemma GrowPick(t: Slots, id: u64, rows: seq<Vector>, v: Vector)
    requires t.Ok() && id !in t.idToSlot && |rows| == |t.ids| && t.Grow(id).Ok()
    ensures t.Grow(id).Pick(rows + [v]) == t.Pick(rows)[id := v]
  {}

  lemma ReplaceOk(t: Slots, id: u64, rows: seq<Vector>, v: Vector)
    requires t.Ok() && id in t.idToSlot && |rows| == |t.ids|
    ensures t.Pick(rows[t.idToSlot[id] := v]) == t.Pick(rows)[id := v]
  {}

  lemma FreePartition(t: Slots, id: u64)
    requires t.Ok() && id in t.idToSlot && t.live > 0
    ensures
      var t' := t.Free(id);
      && (forall i | 0 <= i < |t'.freeSlots| :: t'.freeSlots[i] < |t'.ids| && t'.ids[t'.freeSlots[i]].None?)
      && (forall i, j | 0 <= i < j < |t'.freeSlots| :: t'.freeSlots[i] != t'.freeSlots[j])
      && (forall s | 0 <= s < |t'.ids| && t'.ids[s].None? :: s in t'.freeSlots)
  {}

  lemma FreeOk(t: Slots, id: u64)
    requires t.Ok() && id in t.idToSlot
    ensures t.live > 0 && t.Free(id).Ok()
  {
    assert t.live > 0 by { assert t.idToSlot.Keys != {}; }
    var t' := t.Free(id);
    assert t'.idToSlot.Keys == t.idToSlot.Keys - {id};
    FreePartition(t, id);
  }

  lemma FreePick(t: Slots, id: u64, rows: seq<Vector>)
    requires t.Ok() && id in t.idToSlot && |rows| == |t.ids| && t.live > 0 && t.Free(id).Ok()
    ensures t.Free(id).Pick(rows) == t.Pick(rows) - {id}
  {}

  class BruteForceIndex {
    const dim: nat
    const metric: Metric
    var ids: seq<Option<u64>>
    var vectors: seq<F32>
    var idToSlot: map<u64, nat>
    var freeSlots: seq<nat>
    var live: nat

    ghost function T(): Slots
      reads this
    {
      Slots(ids, idToSlot, freeSlots, live)
    }

    ghost predicate Valid()
      reads this
    {
      dim > 0 && T().Ok() && |vectors| == |ids| * dim
    }

    /** The abstract value: id -> vector. */
    ghost function View(): map<u64, Vector>
      reads this
      requires Valid()
    {
      T().Pick(Rows(vectors, dim, |ids|))
    }

    constructor (dim: nat, metric: Metric)
      requires dim > 0
      ensures Valid() && View() == map[] && this.dim == dim && this.metric == metric
    {
      this.dim, this.metric := dim, metric;
      ids, vectors, idToSlot, freeSlots, live := [], [], map[], [], 0;
    }

    /** Insert is a full replace; a wrong dimension changes nothing. */
    method Insert(id: u64, vector: Vector) returns (ok: bool)
      requires Valid()
      modifies this
      ensures Valid() && ok == (|vector| == dim)
      ensures View() == if ok then old(View())[id := vector] else old(View())
    {
      if |vector| != dim { return false; }
      ok := true;
      if id in idToSlot {
        var slot := idToSlot[id];
        ReplaceOk(T(), id, Rows(vectors, dim, |ids|), vector);
        WriteRowRows(vectors, dim, |ids|, slot, vector);
        vectors := WriteRow(vectors, dim, slot, vector);
        return;
      }
      if freeSlots != [] {
        InsertIntoFreeSlot(id, vector);
      } else {
        InsertIntoNewSlot(id, vector);
      }
    }

    method InsertIntoFreeSlot(id: u64, vector: Vector)
      requires Valid() && id !in idToSlot && |vector| == dim && freeSlots != []
      modifies this
      ensures Valid() && View() == old(View())[id := vector]
    {
      ghost var t := T();
      ReuseOk(t, id, Rows(vectors, dim, |ids|), vector);
      var slot := freeSlots[|freeSlots| - 1];
      WriteRowRows(vectors, dim, |ids|, slot, vector);
      freeSlots := freeSlots[..|freeSlots| - 1];
      ids := ids[slot := Some(id)];
      vectors := WriteRow(vectors, dim, slot, vector);
      idToSlot := idToSlot[id := slot];
      live := live + 1;
      assert T() == t.Reuse(id);
    }

    method InsertIntoNewSlot(id: u64, vector: Vector)
      requires Valid() && id !in idToSlot && |vector| == dim && freeSlots == []
      modifies this
      ensures Valid() && View() == old(View())[id := vector]
    {
      ghost var t := T();
      GrowOk(t, id, Rows(vectors, dim, |ids|), vector);
      AppendRowRows(vectors, dim, |ids|, vector);
      var slot := |ids|;
      ids := ids + [Some(id)];
      vectors := vectors + vector;
      idToSlot := idToSlot[id := slot];
      live := live + 1;
      assert T() == t.Grow(id);
    }

    /** Deleting an absent id changes nothing and says so. */
    method Delete(id: u64) returns (removed: bool)
      requires Valid()
      modifies this
      ensures Valid() && removed == (id in old(View()))
      ensures View() == old(View()) - {id}
    {
      if id in idToSlot {
        RemoveSlot(id);
        removed := true;
      } else {
        removed := false;
      }
    }

    method RemoveSlot(id: u64)
      requires Valid() && id in idToSlot
      modifies this
      ensures Valid() && View() == old(View()) - {id}
    {
      ghost var t, rows := T(), Rows(vectors, dim, |ids|);
      assert live > 0 by { FreeOk(t, id); }
      var slot := idToSlot[id];
      idToSlot := idToSlot - {id};
      ids := ids[slot := None];
      freeSlots := freeSlots + [slot];
      live := live - 1;
      assert T() == t.Free(id) && Rows(vectors, dim, |ids|) == rows;
      FreeOk(t, id);
      FreePick(t, id, rows);
    }

    method GetVector(id: u64) returns (v: Option<Vector>)
      requires Valid()
      ensures v == if id in View() then Some(View()[id]) else None
    {
      if id !in idToSlot { return None; }
      v := Some(RowAt(vectors, dim, |ids|, idToSlot[id]));
    }

    /** Search is exactly the `k` smallest by (distance, id). */
    method Search(query: Vector, k: nat) returns (out: Option<seq<Hit>>)
      requires Valid()
      ensures out.None? <==> |query| != dim
      ensures out.Some? ==> IsTopK(Scores(metric, View(), query), k, out.value)
    {
      if |query| != dim { return None; }
      ScoresSize(metric, View(), query);
      if k == 0 || live == 0 {
        assert live == 0 ==> idToSlot.Keys == {};
        return Some([]);
      }
      var scored := ScoreAll(query);
      SortTruncate(scored, k);
      out := Some(Take(Sort(AtMost, scored), k));
    }

    /** The scan over occupied slots. */
    method ScoreAll(query: Vector) returns (scored: seq<Hit>)
      requires Valid()
      ensures Distinct(scored) && Elems(scored) == Scores(metric, View(), query)
    {
      scored := [];
      ghost var all, view := Scores(metric, View(), query), View();
      for slot := 0 to |ids|
        invariant forall h :: h in scored <==> h in all && h.id in idToSlot && idToSlot[h.id] < slot
        invariant Distinct(scored)
      {
        if ids[slot].Some? {
          var id := ids[slot].value;
          var h := Hit(id, metric(query, RowAt(vectors, dim, |ids|, slot)));
          assert view[id] == RowAt(vectors, dim, |ids|, slot);
          ConcatDistinct(scored, [h]);
          scored := scored + [h];
        }
      }
    }
  }
}
