/** Neighbour selection and the wiring of one layer (crates/qv-hnsw/src/hnsw.rs). */
module HnswLinks {
  import opened Bytes
  import opened TopK
  import opened HnswGraph

  datatype Params = Params(m: nat, m0: nat, efConstruction: nat) {
    predicate Ok() { 2 <= m <= m0 && 1 <= efConstruction }

    function MMax(l: nat): nat { if l == 0 then m0 else m }
  }

  function Between(metric: Metric, g: Graph, a: nat, b: nat): int
    requires a < |g| && b < |g|
  {
    metric(g[a].vector, g[b].vector)
  }

  ghost predicate InGraph(g: Graph, hs: seq<Hit>) { forall i | 0 <= i < |hs| :: hs[i].id < |g| }

  ghost predicate DistinctIds(hs: seq<Hit>) { forall i, j | 0 <= i < j < |hs| :: hs[i].id != hs[j].id }

  ghost predicate NoDup(s: seq<nat>) { forall i, j | 0 <= i < j < |s| :: s[i] != s[j] }

  function Ids(hs: seq<Hit>): (ids: seq<nat>)
    ensures |ids| == |hs| && forall i | 0 <= i < |hs| :: ids[i] == hs[i].id
  {
    seq(|hs|, i requires 0 <= i < |hs| => hs[i].id)
  }

  // ---- the pruning heuristic ------------------------------------------------

  /** A kept neighbour, no farther from the base, is strictly closer to `h` than the base is. */
  ghost predicate Blocked(metric: Metric, g: Graph, kept: seq<Hit>, h: Hit)
    requires InGraph(g, kept) && h.id < |g|
  {
    exists i :: 0 <= i < |kept| && kept[i].score <= h.score && Between(metric, g, h.id, kept[i].id) < h.score
  }

  /** Algorithm 4: at most `m` candidates, nearest first, none closer to an earlier
      kept one than to the base; a candidate is left out only because a kept one
      blocks it or because `m` no-farther ones were kept. */
  ghost predicate IsSelection(metric: Metric, g: Graph, cands: seq<Hit>, m: nat, kept: seq<Hit>)
    requires InGraph(g, cands)
  {
    && |kept| <= m && (forall i | 0 <= i < |kept| :: kept[i] in cands) && InGraph(g, kept)
    && (DistinctIds(cands) ==> DistinctIds(kept))
    && (forall i, j | 0 <= i < j < |kept| :: kept[i].score <= kept[j].score)
    && (forall i, j | 0 <= i < j < |kept| :: Between(metric, g, kept[j].id, kept[i].id) >= kept[j].score)
    && (forall h | h in cands && h !in kept ::
          Blocked(metric, g, kept, h) || (|kept| == m && forall i | 0 <= i < |kept| :: kept[i].score <= h.score))
  }

  /** A nonempty candidate list keeps a nearest candidate first. */
  lemma SelectionKeepsNearest(metric: Metric, g: Graph, cands: seq<Hit>, m: nat, kept: seq<Hit>, h: Hit)
    requires InGraph(g, cands) && IsSelection(metric, g, cands, m, kept) && m >= 1 && h in cands
    ensures kept != [] && kept[0].score <= h.score
  {}

  /** The inner keep test: the first kept one closer to `h` than the base, if any. */
  method FindBlocker(metric: Metric, g: Graph, kept: seq<Hit>, h: Hit) returns (b: nat)
    requires InGraph(g, kept) && h.id < |g|
    ensures b <= |kept| && forall x | 0 <= x < b :: Between(metric, g, h.id, kept[x].id) >= h.score
    ensures b < |kept| ==> Between(metric, g, h.id, kept[b].id) < h.score
  {
    for i := 0 to |kept|
      invariant forall x | 0 <= x < i :: Between(metric, g, h.id, kept[x].id) >= h.score
    {
      if Between(metric, g, h.id, kept[i].id) < h.score { return i; }
    }
    return |kept|;
  }

  method SelectNeighbors(metric: Metric, g: Graph, cands: seq<Hit>, m: nat) returns (kept: seq<Hit>)
    requires InGraph(g, cands)
    ensures IsSelection(metric, g, cands, m, kept)
  {
    Orders();
    SortSpec(NoFarther, cands);
    var cs := Sort(NoFarther, cands);
    SortedCands(g, cands, cs);
    var j;
    kept, j := SelectSorted(metric, g, cs, m);
    SelectDone(metric, g, cands, cs, m, kept, j);
  }

  /** The loop over candidates nearest first, until enough are kept. */
  method SelectSorted(metric: Metric, g: Graph, cs: seq<Hit>, m: nat) returns (kept: seq<Hit>, j: nat)
    requires InGraph(g, cs) && Sorted(NoFarther, cs)
    ensures j <= |cs| && SelectInv(metric, g, cs, m, kept, j) && (j == |cs| || |kept| >= m)
  {
    kept, j := [], 0;
    while j < |cs| && |kept| < m
      invariant 0 <= j <= |cs| && SelectInv(metric, g, cs, m, kept, j)
    {
      var b := FindBlocker(metric, g, kept, cs[j]);
      if b == |kept| {
        KeepStep(metric, g, cs, m, kept, j);
        kept := kept + [cs[j]];
      } else {
        RejectStep(metric, g, cs, m, kept, j, b);
      }
      j := j + 1;
    }
  }

  lemma SortedCands(g: Graph, cands: seq<Hit>, cs: seq<Hit>)
    requires InGraph(g, cands) && multiset(cs) == multiset(cands)
    ensures InGraph(g, cs) && (DistinctIds(cands) ==> DistinctIds(cs))
    ensures forall h :: h in cs <==> h in cands
  {
    SameElements(cands, cs);
    forall h ensures h in cs <==> h in cands { assert h in Elems(cs) <==> h in Elems(cands); }
    forall i | 0 <= i < |cs| ensures cs[i].id < |g| { assert cs[i] in cands; }
    if DistinctIds(cands) {
      assert Distinct(cands);
      forall i, j | 0 <= i < j < |cs| ensures cs[i].id != cs[j].id {
        assert cs[i] in cands && cs[j] in cands && cs[i] != cs[j];
      }
    }
  }

  /** Nearest first, and none closer to an earlier kept one than to the base. */
  ghost predicate Spread(metric: Metric, g: Graph, kept: seq<Hit>)
    requires InGraph(g, kept)
  {
    && (forall i, k | 0 <= i < k < |kept| :: kept[i].score <= kept[k].score)
    && (forall i, k | 0 <= i < k < |kept| :: Between(metric, g, kept[k].id, kept[i].id) >= kept[k].score)
  }

  lemma SpreadMore(metric: Metric, g: Graph, kept: seq<Hit>, h: Hit)
    requires InGraph(g, kept) && Spread(metric, g, kept) && h.id < |g|
    requires forall i | 0 <= i < |kept| :: kept[i].score <= h.score && Between(metric, g, h.id, kept[i].id) >= h.score
    ensures InGraph(g, kept + [h]) && Spread(metric, g, kept + [h])
  {}

  /** The loop has decided the first `j` candidates of the sorted list. */
  ghost predicate SelectInv(metric: Metric, g: Graph, cs: seq<Hit>, m: nat, kept: seq<Hit>, j: nat)
    requires InGraph(g, cs) && j <= |cs|
  {
    && |kept| <= m && InGraph(g, kept) && (forall i | 0 <= i < |kept| :: kept[i] in cs[..j])
    && (DistinctIds(cs) ==> DistinctIds(kept))
    && Spread(metric, g, kept)
    && (forall x | 0 <= x < j :: cs[x] in kept || Blocked(metric, g, kept, cs[x]))
  }

  lemma BlockedStays(metric: Metric, g: Graph, kept: seq<Hit>, more: Hit, h: Hit)
    requires InGraph(g, kept) && more.id < |g| && h.id < |g| && Blocked(metric, g, kept, h)
    ensures Blocked(metric, g, kept + [more], h)
  {
    var i :| 0 <= i < |kept| && kept[i].score <= h.score && Between(metric, g, h.id, kept[i].id) < h.score;
    assert (kept + [more])[i] == kept[i];
  }

  /** Everything kept so far is no farther than the candidate up next. */
  lemma KeptNoFarther(metric: Metric, g: Graph, cs: seq<Hit>, m: nat, kept: seq<Hit>, j: nat, x: nat, i: nat)
    requires InGraph(g, cs) && Sorted(NoFarther, cs) && j <= x < |cs| && SelectInv(metric, g, cs, m, kept, j) && i < |kept|
    ensures kept[i].score <= cs[x].score && (DistinctIds(cs) ==> kept[i].id != cs[x].id)
  {}

  lemma KeepStep(metric: Metric, g: Graph, cs: seq<Hit>, m: nat, kept: seq<Hit>, j: nat)
    requires InGraph(g, cs) && Sorted(NoFarther, cs) && j < |cs| && |kept| < m && SelectInv(metric, g, cs, m, kept, j)
    requires forall i | 0 <= i < |kept| :: Between(metric, g, cs[j].id, kept[i].id) >= cs[j].score
    ensures SelectInv(metric, g, cs, m, kept + [cs[j]], j + 1)
  {
    KeptStaysEarlier(cs, kept, j);
    assert cs[..j + 1][j] == cs[j];
    forall i | 0 <= i < |kept| ensures kept[i].score <= cs[j].score && (DistinctIds(cs) ==> kept[i].id != cs[j].id) {
      KeptNoFarther(metric, g, cs, m, kept, j, j, i);
    }
    SpreadMore(metric, g, kept, cs[j]);
    DecidedStays(metric, g, cs, m, kept, j);
  }

  lemma DecidedStays(metric: Metric, g: Graph, cs: seq<Hit>, m: nat, kept: seq<Hit>, j: nat)
    requires InGraph(g, cs) && j < |cs| && SelectInv(metric, g, cs, m, kept, j)
    ensures InGraph(g, kept + [cs[j]])
    ensures forall x | 0 <= x < j + 1 :: cs[x] in kept + [cs[j]] || Blocked(metric, g, kept + [cs[j]], cs[x])
  {
    var kept' := kept + [cs[j]];
    forall x | 0 <= x < j + 1 ensures cs[x] in kept' || Blocked(metric, g, kept', cs[x]) {
      if x == j { assert kept'[|kept|] == cs[x]; }
      else if cs[x] !in kept { BlockedStays(metric, g, kept, cs[j], cs[x]); }
    }
  }

  lemma RejectStep(metric: Metric, g: Graph, cs: seq<Hit>, m: nat, kept: seq<Hit>, j: nat, b: nat)
    requires InGraph(g, cs) && Sorted(NoFarther, cs) && j < |cs| && SelectInv(metric, g, cs, m, kept, j)
    requires b < |kept| && Between(metric, g, cs[j].id, kept[b].id) < cs[j].score
    ensures SelectInv(metric, g, cs, m, kept, j + 1)
  {
    KeptNoFarther(metric, g, cs, m, kept, j, j, b);
    assert Blocked(metric, g, kept, cs[j]);
    KeptStaysEarlier(cs, kept, j);
  }

  lemma KeptStaysEarlier(cs: seq<Hit>, kept: seq<Hit>, j: nat)
    requires j < |cs| && forall i | 0 <= i < |kept| :: kept[i] in cs[..j]
    ensures forall i | 0 <= i < |kept| :: kept[i] in cs[..j + 1]
  {
    assert cs[..j + 1] == cs[..j] + [cs[j]];
  }

  lemma SelectDone(metric: Metric, g: Graph, cands: seq<Hit>, cs: seq<Hit>, m: nat, kept: seq<Hit>, j: nat)
    requires InGraph(g, cands) && InGraph(g, cs) && Sorted(NoFarther, cs) && j <= |cs| && SelectInv(metric, g, cs, m, kept, j)
    requires (DistinctIds(cands) ==> DistinctIds(cs)) && forall h :: h in cs <==> h in cands
    requires j == |cs| || |kept| >= m
    ensures IsSelection(metric, g, cands, m, kept)
  {}

  /** The candidates `prune_neighbors` offers: an adjacency list with distances to its owner. */
  function CandidatesOf(metric: Metric, g: Graph, base: nat, list: seq<nat>): (hs: seq<Hit>)
    requires base < |g| && forall i | 0 <= i < |list| :: list[i] < |g|
    ensures |hs| == |list| && InGraph(g, hs)
    ensures forall i | 0 <= i < |list| :: hs[i] == Hit(list[i], Between(metric, g, base, list[i]))
  {
    seq(|list|, i requires 0 <= i < |list| => Hit(list[i], Between(metric, g, base, list[i])))
  }

  /** `list'` is what the heuristic keeps of `list` around `base`. */
  ghost predicate IsPruned(metric: Metric, g: Graph, base: nat, list: seq<nat>, m: nat, list': seq<nat>)
    requires base < |g| && forall i | 0 <= i < |list| :: list[i] < |g|
  {
    exists kept :: IsSelection(metric, g, CandidatesOf(metric, g, base, list), m, kept) && list' == Ids(kept)
  }

  lemma PrunedList(metric: Metric, g: Graph, base: nat, list: seq<nat>, m: nat, list': seq<nat>)
    requires base < |g| && NoDup(list) && forall i | 0 <= i < |list| :: list[i] < |g|
    requires IsPruned(metric, g, base, list, m, list')
    ensures |list'| <= m && NoDup(list') && forall n | n in list' :: n in list
  {}
}
