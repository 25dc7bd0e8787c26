/** Exact k-smallest selection: the common specification of brute-force search, the
    scatter-gather merge and ring placement, and of graph search up to ties.
    Only comparisons of scores matter, so an ordered domain without NaN is
    represented by `int`. */
module TopK {
  /** A scored item: a point with its distance, or a node with its ring distance. */
  datatype Hit = Hit(id: nat, score: int)

  /** The order of every sort in the source that breaks ties: score, then id. */
  predicate Before(a: Hit, b: Hit) {
    a.score < b.score || (a.score == b.score && a.id < b.id)
  }

  function Elems(s: seq<Hit>): set<Hit> { set h | h in s }

  function Min(a: nat, b: nat): nat { if a < b then a else b }

  function Take(s: seq<Hit>, k: nat): seq<Hit> { s[..Min(k, |s|)] }

  ghost predicate Distinct(s: seq<Hit>) { forall i, j | 0 <= i < j < |s| :: s[i] != s[j] }

  ghost predicate StrictlySorted(s: seq<Hit>) { forall i, j | 0 <= i < j < |s| :: Before(s[i], s[j]) }

  /** `out` lists the `k` first candidates in order. */
  ghost predicate IsTopK(cands: set<Hit>, k: nat, out: seq<Hit>) {
    && StrictlySorted(out)
    && Elems(out) <= cands
    && |out| == Min(k, |cands|)
    && forall h, x | h in cands && h !in out && x in out :: Before(x, h)
  }

  /** `out` lists `k` nearest candidates in ascending order, ties in any order. */
  ghost predicate IsTopKUpToTies(cands: set<Hit>, k: nat, out: seq<Hit>) {
    && Distinct(out)
    && (forall i, j | 0 <= i < j < |out| :: out[i].score <= out[j].score)
    && Elems(out) <= cands
    && |out| == Min(k, |cands|)
    && forall h, x | h in cands && h !in out && x in out :: x.score <= h.score
  }

  lemma {:induction false} DistinctSize(s: seq<Hit>)
    requires Distinct(s)
    ensures |Elems(s)| == |s|
    decreases |s|
  {
    if s != [] {
      var init, last := s[..|s| - 1], s[|s| - 1];
      DistinctSize(init);
      assert Elems(s) == Elems(init) + {last};
    }
  }

  lemma SubsetSize(a: set<Hit>, b: set<Hit>)
    requires a <= b
    ensures |a| <= |b|
    ensures |a| == |b| ==> a == b
  {
    assert b == a + (b - a);
    assert |b| == |a| + |b - a|;
  }

  lemma TopKIsTopKUpToTies(cands: set<Hit>, k: nat, out: seq<Hit>)
    requires IsTopK(cands, k, out)
    ensures IsTopKUpToTies(cands, k, out)
  {}

  /** The scores of a nearest-k list do not depend on how ties were broken. */
  lemma ScoresUnique(cands: set<Hit>, k: nat, a: seq<Hit>, b: seq<Hit>, i: nat)
    requires IsTopKUpToTies(cands, k, a) && IsTopKUpToTies(cands, k, b) && i < |a|
    ensures a[i].score == b[i].score
  {
    if a[i].score < b[i].score { ScoreNotBelow(cands, k, a, b, i); }
    if b[i].score < a[i].score { ScoreNotBelow(cands, k, b, a, i); }
  }

  /** Among `i + 1` distinct items one is not among `i` others. */
  lemma SomeNew(a: seq<Hit>, b: seq<Hit>, i: nat) returns (j: nat)
    requires Distinct(a) && i < |a| && i <= |b|
    ensures j <= i && a[j] !in b[..i]
  {
    var pa := a[..i + 1];
    DistinctSize(pa);
    ElemsSize(b[..i]);
    if forall m | 0 <= m <= i :: a[m] in b[..i] {
      assert Elems(pa) <= Elems(b[..i]);
      SubsetSize(Elems(pa), Elems(b[..i]));
    }
    j :| 0 <= j <= i && a[j] !in b[..i];
  }

  lemma {:induction false} ElemsSize(s: seq<Hit>)
    ensures |Elems(s)| <= |s|
    decreases |s|
  {
    if s != [] {
      var init, last := s[..|s| - 1], s[|s| - 1];
      ElemsSize(init);
      assert Elems(s) == Elems(init) + {last};
    }
  }

  lemma ScoreNotBelow(cands: set<Hit>, k: nat, a: seq<Hit>, b: seq<Hit>, i: nat)
    requires IsTopKUpToTies(cands, k, a) && IsTopKUpToTies(cands, k, b) && i < |a|
    ensures a[i].score >= b[i].score
  {
    var j := SomeNew(a, b, i);
    assert a[j] in Elems(a) && b[i] in b;
    if a[j] in b {
      var m :| 0 <= m < |b| && b[m] == a[j];
      assert forall n | 0 <= n < i :: b[n] == b[..i][n];
      assert m >= i;
    }
  }

  lemma TopKUnique(cands: set<Hit>, k: nat, a: seq<Hit>, b: seq<Hit>)
    requires IsTopK(cands, k, a) && IsTopK(cands, k, b)
    ensures a == b
  {
    forall i | 0 <= i < |a| ensures a[i] == b[i] { TopKUniqueAt(cands, k, a, b, i); }
  }

  lemma {:induction false} TopKUniqueAt(cands: set<Hit>, k: nat, a: seq<Hit>, b: seq<Hit>, i: nat)
    requires IsTopK(cands, k, a) && IsTopK(cands, k, b) && i < |a|
    ensures a[..i + 1] == b[..i + 1]
  {
    if i > 0 { TopKUniqueAt(cands, k, a, b, i - 1); }
    assert a[..i] == b[..i] by { assert i > 0 ==> a[..i] == a[..i - 1 + 1]; }
    NotBefore(cands, k, a, b, i);
    NotBefore(cands, k, b, a, i);
  }

  lemma NotBefore(cands: set<Hit>, k: nat, a: seq<Hit>, b: seq<Hit>, i: nat)
    requires IsTopK(cands, k, a) && IsTopK(cands, k, b) && i < |a| && a[..i] == b[..i]
    ensures !Before(a[i], b[i])
  {
    assert a[i] in Elems(a) && b[i] in b;
    assert forall m | 0 <= m < i :: b[m] == b[..i][m] == a[..i][m] == a[m];
    if a[i] in b {
      var m :| 0 <= m < |b| && b[m] == a[i];
      assert m >= i;
    }
  }

  lemma StrictlySortedDistinct(s: seq<Hit>)
    requires StrictlySorted(s)
    ensures Distinct(s)
  {}

  // ---- sorting --------------------------------------------------------------

  ghost predicate TotalPreorder(le: (Hit, Hit) -> bool) {
    && (forall a, b :: le(a, b) || le(b, a))
    && (forall a, b, c :: le(a, b) && le(b, c) ==> le(a, c))
  }

  ghost predicate Sorted(le: (Hit, Hit) -> bool, s: seq<Hit>) {
    forall i, j | 0 <= i < j < |s| :: le(s[i], s[j])
  }

  function Insert(le: (Hit, Hit) -> bool, s: seq<Hit>, x: Hit): seq<Hit> {
    if s == [] then [x]
    else if le(s[|s| - 1], x) then s + [x]
    else Insert(le, s[..|s| - 1], x) + [s[|s| - 1]]
  }

  /** The library's stable `sort_by`. */
  function Sort(le: (Hit, Hit) -> bool, s: seq<Hit>): seq<Hit> {
    if s == [] then [] else Insert(le, Sort(le, s[..|s| - 1]), s[|s| - 1])
  }

  lemma {:induction false} InsertSpec(le: (Hit, Hit) -> bool, s: seq<Hit>, x: Hit)
    requires TotalPreorder(le) && Sorted(le, s)
    ensures Sorted(le, Insert(le, s, x))
    ensures multiset(Insert(le, s, x)) == multiset(s) + multiset{x}
    decreases |s|
  {
    if s != [] {
      var init, last := s[..|s| - 1], s[|s| - 1];
      assert s == init + [last];
      if le(last, x) {
        forall i | 0 <= i < |s| ensures le(s[i], x) { assert i < |init| ==> le(s[i], last); }
      } else {
        InsertSpec(le, init, x);
        var t := Insert(le, init, x);
        forall i | 0 <= i < |t| ensures le(t[i], last) {
          assert t[i] in multiset(t);
          assert t[i] == x || t[i] in init;
        }
      }
    }
  }

  lemma {:induction false} SortSpec(le: (Hit, Hit) -> bool, s: seq<Hit>)
    requires TotalPreorder(le)
    ensures Sorted(le, Sort(le, s))
    ensures multiset(Sort(le, s)) == multiset(s)
    decreases |s|
  {
    if s != [] {
      var init, last := s[..|s| - 1], s[|s| - 1];
      SortSpec(le, init);
      InsertSpec(le, Sort(le, init), last);
      assert s == init + [last];
    }
  }

  predicate AtMost(a: Hit, b: Hit) { a == b || Before(a, b) }
  predicate NoFarther(a: Hit, b: Hit) { a.score <= b.score }

  lemma Orders()
    ensures TotalPreorder(AtMost) && TotalPreorder(NoFarther)
  {}

  lemma RepeatedCount(t: seq<Hit>, i: nat, j: nat)
    requires i < j < |t| && t[i] == t[j]
    ensures multiset(t)[t[i]] >= 2
  {
    assert t == t[..j] + [t[j]] + t[j + 1..];
    assert t[i] in t[..j];
  }

  lemma SameElements(s: seq<Hit>, t: seq<Hit>)
    requires multiset(s) == multiset(t)
    ensures Elems(s) == Elems(t) && |s| == |t|
    ensures Distinct(s) ==> Distinct(t)
  {
    forall h ensures h in s <==> h in t { assert h in s <==> h in multiset(s); assert h in t <==> h in multiset(t); }
    assert |s| == |multiset(s)| && |t| == |multiset(t)|;
    if Distinct(s) {
      DistinctCounts(s);
      forall i, j | 0 <= i < j < |t| ensures t[i] != t[j] {
        if t[i] == t[j] { RepeatedCount(t, i, j); }
      }
    }
  }

  lemma {:induction false} DistinctCounts(s: seq<Hit>)
    requires Distinct(s)
    ensures forall h :: multiset(s)[h] <= 1
    decreases |s|
  {
    if s != [] {
      var init, last := s[..|s| - 1], s[|s| - 1];
      DistinctCounts(init);
      assert s == init + [last];
      assert last !in init;
    }
  }

  /** Sorting by (score, id) and truncating selects exactly the first `k`. */
  lemma SortTruncate(s: seq<Hit>, k: nat)
    requires Distinct(s)
    ensures IsTopK(Elems(s), k, Take(Sort(AtMost, s), k))
  {
    Orders();
    SortSpec(AtMost, s);
    var t := Sort(AtMost, s);
    SameElements(s, t);
    DistinctSize(s);
    var out := Take(t, k);
    assert forall m | 0 <= m < |out| :: t[m] == out[m];
    forall h, x | h in Elems(s) && h !in out && x in out ensures Before(x, h) {
      var i :| 0 <= i < |t| && t[i] == h;
      var j :| 0 <= j < |out| && out[j] == x;
    }
  }

  // ---- merging per-shard answers --------------------------------------------

  function Flatten(ss: seq<seq<Hit>>): seq<Hit> {
    if ss == [] then [] else Flatten(ss[..|ss| - 1]) + ss[|ss| - 1]
  }

  function Union(ps: seq<set<Hit>>): set<Hit> {
    if ps == [] then {} else Union(ps[..|ps| - 1]) + ps[|ps| - 1]
  }

  lemma {:induction false} InUnion(ps: seq<set<Hit>>, h: Hit)
    ensures h in Union(ps) <==> exists i :: 0 <= i < |ps| && h in ps[i]
    decreases |ps|
  {
    if ps != [] {
      var init := ps[..|ps| - 1];
      InUnion(init, h);
      if i :| 0 <= i < |ps| && h in ps[i] { assert i < |init| ==> h in init[i]; }
      if i :| 0 <= i < |init| && h in init[i] { assert h in ps[i]; }
    }
  }

  lemma {:induction false} InFlatten(ss: seq<seq<Hit>>, h: Hit)
    ensures h in Flatten(ss) <==> exists i :: 0 <= i < |ss| && h in ss[i]
    decreases |ss|
  {
    if ss != [] {
      var init := ss[..|ss| - 1];
      InFlatten(init, h);
      if i :| 0 <= i < |ss| && h in ss[i] { assert i < |init| ==> h in init[i]; }
      if i :| 0 <= i < |init| && h in init[i] { assert h in ss[i]; }
    }
  }

  ghost predicate Disjoint(ps: seq<set<Hit>>) { forall i, j | 0 <= i < j < |ps| :: ps[i] !! ps[j] }

  /** Each answer is its part's exact top k. */
  ghost predicate AllTopK(ps: seq<set<Hit>>, k: nat, outs: seq<seq<Hit>>) {
    |ps| == |outs| && forall i | 0 <= i < |ps| :: IsTopK(ps[i], k, outs[i])
  }

  /** Each answer is a nearest-k list of its part, ties in any order. */
  ghost predicate AllNearest(ps: seq<set<Hit>>, k: nat, outs: seq<seq<Hit>>) {
    |ps| == |outs| && forall i | 0 <= i < |ps| :: IsTopKUpToTies(ps[i], k, outs[i])
  }

  lemma ExactIsNearest(ps: seq<set<Hit>>, k: nat, outs: seq<seq<Hit>>)
    requires AllTopK(ps, k, outs)
    ensures AllNearest(ps, k, outs)
  {
    forall i | 0 <= i < |ps| ensures IsTopKUpToTies(ps[i], k, outs[i]) { TopKIsTopKUpToTies(ps[i], k, outs[i]); }
  }

  lemma ConcatDistinct(a: seq<Hit>, b: seq<Hit>)
    requires Distinct(a) && Distinct(b) && forall h | h in a :: h !in b
    ensures Distinct(a + b)
  {
    forall i, j | 0 <= i < j < |a + b| ensures (a + b)[i] != (a + b)[j] {
      if i < |a| <= j { assert a[i] in a && b[j - |a|] in b; }
    }
  }

  lemma {:induction false} FlattenDistinct(ps: seq<set<Hit>>, k: nat, outs: seq<seq<Hit>>)
    requires Disjoint(ps) && AllNearest(ps, k, outs)
    ensures Distinct(Flatten(outs))
    decreases |ps|
  {
    if ps != [] {
      var n := |ps| - 1;
      FlattenDistinct(ps[..n], k, outs[..n]);
      forall h | h in Flatten(outs[..n]) ensures h !in outs[n] { EarlierPart(ps, k, outs, h); }
      ConcatDistinct(Flatten(outs[..n]), outs[n]);
    }
  }

  lemma EarlierPart(ps: seq<set<Hit>>, k: nat, outs: seq<seq<Hit>>, h: Hit)
    requires Disjoint(ps) && AllNearest(ps, k, outs) && ps != [] && h in Flatten(outs[..|ps| - 1])
    ensures h !in outs[|ps| - 1]
  {
    var n := |ps| - 1;
    InFlatten(outs[..n], h);
    var i :| 0 <= i < n && h in outs[..n][i];
    assert h in Elems(outs[i]) && ps[i] !! ps[n];
    assert h in outs[n] ==> h in Elems(outs[n]);
  }

  lemma FlattenWithin(ps: seq<set<Hit>>, k: nat, outs: seq<seq<Hit>>)
    requires AllNearest(ps, k, outs)
    ensures Elems(Flatten(outs)) <= Union(ps)
  {
    forall h | h in Flatten(outs) ensures h in Union(ps) {
      InFlatten(outs, h);
      var i :| 0 <= i < |outs| && h in outs[i];
      assert h in Elems(outs[i]);
      InUnion(ps, h);
    }
  }

  /** An item no answer names was left out by its own part, which was full. */
  lemma LeftOut(ps: seq<set<Hit>>, k: nat, outs: seq<seq<Hit>>, h: Hit) returns (i: nat)
    requires AllNearest(ps, k, outs) && h in Union(ps) && h !in Flatten(outs)
    ensures i < |ps| && h in ps[i] && h !in outs[i] && |outs[i]| == k
    ensures Elems(outs[i]) <= Elems(Flatten(outs)) && |Elems(outs[i])| == k
  {
    InUnion(ps, h);
    i :| 0 <= i < |ps| && h in ps[i];
    InFlatten(outs, h);
    DistinctSize(outs[i]);
    SubsetSize(Elems(outs[i]), ps[i]);
    forall o | o in outs[i] ensures o in Flatten(outs) { InFlatten(outs, o); }
  }

  /** The merged list has the right length. */
  lemma MergeSize(ps: seq<set<Hit>>, k: nat, outs: seq<seq<Hit>>)
    requires AllNearest(ps, k, outs)
    ensures Min(k, |Elems(Flatten(outs))|) == Min(k, |Union(ps)|)
  {
    var all, u := Elems(Flatten(outs)), Union(ps);
    FlattenWithin(ps, k, outs);
    SubsetSize(all, u);
    if all != u {
      var h :| h in u && h !in all;
      var i := LeftOut(ps, k, outs, h);
      SubsetSize(Elems(outs[i]), all);
    }
  }

  /** `k` items that all come before `x` leave no room for it. */
  lemma NoRoom(all: set<Hit>, k: nat, merged: seq<Hit>, out: seq<Hit>, x: Hit)
    requires IsTopK(all, k, merged) && Elems(out) <= all && |Elems(out)| == k && x in merged
    ensures exists o :: o in out && !Before(o, x)
  {
    StrictlySortedDistinct(merged);
    DistinctSize(merged);
    if forall o | o in out :: Before(o, x) {
      forall o | o in out ensures o in merged && o != x { assert o in Elems(out); }
      assert |Elems(out) + {x}| == k + 1;
      SubsetSize(Elems(out) + {x}, Elems(merged));
    }
  }

  lemma MergedBeforeLeftOut(ps: seq<set<Hit>>, k: nat, outs: seq<seq<Hit>>, merged: seq<Hit>, h: Hit, x: Hit)
    requires AllTopK(ps, k, outs) && IsTopK(Elems(Flatten(outs)), k, merged)
    requires h in Union(ps) && h !in Flatten(outs) && x in merged
    ensures Before(x, h)
  {
    ExactIsNearest(ps, k, outs);
    var i := LeftOut(ps, k, outs, h);
    assert x in Elems(merged) && x != h;
    NoRoom(Elems(Flatten(outs)), k, merged, outs[i], x);
    var o :| o in outs[i] && !Before(o, x);
    assert Before(o, h);
  }

  lemma MergedNoFarther(ps: seq<set<Hit>>, k: nat, outs: seq<seq<Hit>>, merged: seq<Hit>, h: Hit, x: Hit)
    requires AllNearest(ps, k, outs) && IsTopK(Elems(Flatten(outs)), k, merged)
    requires h in Union(ps) && h !in Flatten(outs) && x in merged
    ensures x.score <= h.score
  {
    var i := LeftOut(ps, k, outs, h);
    NoRoom(Elems(Flatten(outs)), k, merged, outs[i], x);
    var o :| o in outs[i] && !Before(o, x);
    assert o.score <= h.score;
  }

  /** Concatenating exact per-part answers, sorting and truncating gives the exact
      answer over the union of the parts. */
  lemma MergeIsTopK(ps: seq<set<Hit>>, k: nat, outs: seq<seq<Hit>>)
    requires Disjoint(ps) && AllTopK(ps, k, outs)
    ensures IsTopK(Union(ps), k, Take(Sort(AtMost, Flatten(outs)), k))
  {
    var merged := Take(Sort(AtMost, Flatten(outs)), k);
    ExactIsNearest(ps, k, outs);
    FlattenDistinct(ps, k, outs);
    SortTruncate(Flatten(outs), k);
    MergeSize(ps, k, outs);
    FlattenWithin(ps, k, outs);
    forall h, x | h in Union(ps) && h !in merged && x in merged ensures Before(x, h) {
      if h !in Flatten(outs) { MergedBeforeLeftOut(ps, k, outs, merged, h, x); }
    }
  }

  /** The same up to ties, which is what answers sorted by distance alone give. */
  lemma MergeIsNearest(ps: seq<set<Hit>>, k: nat, outs: seq<seq<Hit>>)
    requires Disjoint(ps) && AllNearest(ps, k, outs)
    ensures IsTopKUpToTies(Union(ps), k, Take(Sort(AtMost, Flatten(outs)), k))
  {
    var merged := Take(Sort(AtMost, Flatten(outs)), k);
    FlattenDistinct(ps, k, outs);
    SortTruncate(Flatten(outs), k);
    TopKIsTopKUpToTies(Elems(Flatten(outs)), k, merged);
    MergeSize(ps, k, outs);
    FlattenWithin(ps, k, outs);
    forall h, x | h in Union(ps) && h !in merged && x in merged ensures x.score <= h.score {
      if h !in Flatten(outs) { MergedNoFarther(ps, k, outs, merged, h, x); }
    }
  }
}
