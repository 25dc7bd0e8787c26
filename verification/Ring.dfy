/** Two-layer placement: points to shards by hash, shards to nodes by a
    consistent-hash ring (crates/qv-cluster/src/placement.rs). */
module Placement {
  import opened Bytes
  import opened TopK

  /** The hash is uninterpreted; `vnodes` is the number of ring positions per node. */
  datatype Scheme = Scheme(hash: seq<byte> -> u64, vnodes: u32) {
    function Position(node: u64, vi: u32): u64 { hash(ToLe(8, node) + ToLe(4, vi)) }

    function Home(collection: seq<byte>, shard: u32): u64 { hash(collection + ToLe(4, shard)) }

    function ShardForId(id: u64, shardCount: u32): (s: u32)
      requires shardCount > 0
      ensures s < shardCount
    {
      hash(ToLe(8, id)) % shardCount
    }
  }

  // ---- what is hashed -------------------------------------------------------

  /** The scheme whose hash singles out one byte string. */
  function Probe(key: seq<byte>): Scheme { Scheme((b: seq<byte>) => if b == key then 1 else 0, 1) }

  /** A ring position depends on node and vnode number and on nothing less: some hash
      tells any two different pairs apart. */
  lemma PositionsSeparate(node: u64, vi: u32, node': u64, vi': u32)
    requires (node, vi) != (node', vi')
    ensures exists p: Scheme :: p.Position(node, vi) != p.Position(node', vi')
  {
    var key, other := ToLe(8, node) + ToLe(4, vi), ToLe(8, node') + ToLe(4, vi');
    if key == other {
      assert key[..8] == ToLe(8, node) && other[..8] == ToLe(8, node') && key[8..] == ToLe(4, vi) && other[8..] == ToLe(4, vi');
      Widths();
      ToLeInjective(8, node, node');
      ToLeInjective(4, vi, vi');
    }
    assert Probe(key).Position(node, vi) == 1 && Probe(key).Position(node', vi') == 0;
  }

  /** A shard's home depends on collection and shard number and on nothing less. */
  lemma HomesSeparate(c: seq<byte>, shard: u32, c': seq<byte>, shard': u32)
    requires (c, shard) != (c', shard')
    ensures exists p: Scheme :: p.Home(c, shard) != p.Home(c', shard')
  {
    var key, other := c + ToLe(4, shard), c' + ToLe(4, shard');
    if key == other {
      assert |c| == |c'| && key[..|c|] == c && other[..|c|] == c' && key[|c|..] == ToLe(4, shard) && other[|c|..] == ToLe(4, shard');
      Widths();
      ToLeInjective(4, shard, shard');
    }
    assert Probe(key).Home(c, shard) == 1 && Probe(key).Home(c', shard') == 0;
  }

  /** A point's shard is the residue of the hash of its id, so it is congruent to that hash
      and some hash tells any two ids apart as soon as there are two shards. */
  lemma ShardIsResidue(p: Scheme, id: u64, shardCount: u32)
    requires shardCount > 0
    ensures exists q: nat :: p.hash(ToLe(8, id)) == q * shardCount + p.ShardForId(id, shardCount)
  {
    var h, q := p.hash(ToLe(8, id)), p.hash(ToLe(8, id)) / shardCount;
    assert h == q * shardCount + h % shardCount;
  }

  lemma SmallResidues(n: nat)
    requires n >= 2
    ensures 1 % n == 1 && 0 % n == 0
  {}

  lemma ShardsSeparate(id: u64, id': u64, shardCount: u32)
    requires id != id' && shardCount >= 2
    ensures exists p: Scheme :: p.ShardForId(id, shardCount) != p.ShardForId(id', shardCount)
  {
    Widths();
    if ToLe(8, id) == ToLe(8, id') { ToLeInjective(8, id, id'); }
    var p := Probe(ToLe(8, id));
    SmallResidues(shardCount);
    assert p.hash(ToLe(8, id)) == 1 && p.hash(ToLe(8, id')) == 0;
    assert p.ShardForId(id, shardCount) == 1 && p.ShardForId(id', shardCount) == 0;
  }

  // ---- the simple specification ---------------------------------------------

  /** Clockwise distance around the 2^64 ring. */
  function Clockwise(home: u64, pos: u64): u64 { (pos - home) % U64 }

  /** Distance from `home` to the nearest of a node's first `k` positions. */
  function Nearest(p: Scheme, home: u64, node: u64, k: u32): u64
    requires 1 <= k
  {
    var d := Clockwise(home, p.Position(node, k - 1));
    if k == 1 then d
    else var e := Nearest(p, home, node, k - 1); if e < d then e else d
  }

  /** Each node with its distance from `home`. */
  function Keys(p: Scheme, home: u64, nodes: set<u64>): (ks: KeyMap)
    requires p.vnodes >= 1
  {
    map n | n in nodes :: Hit(n, Nearest(p, home, n, p.vnodes))
  }

  type KeyMap = ks: map<u64, Hit> | forall n | n in ks :: ks[n].id == n witness map[]

  function Keyed(ks: KeyMap, list: seq<u64>): (hs: seq<Hit>)
    requires forall i | 0 <= i < |list| :: list[i] in ks
    ensures |hs| == |list| && forall i | 0 <= i < |list| :: hs[i] == ks[list[i]]
  {
    seq(|list|, i requires 0 <= i < |list| => ks[list[i]])
  }

  /** `list` is the first `k` keyed nodes in key order. */
  ghost predicate Selects(ks: KeyMap, k: nat, list: seq<u64>) {
    && (forall i | 0 <= i < |list| :: list[i] in ks)
    && IsTopK(ks.Values, k, Keyed(ks, list))
  }

  /** `list` is the first `k` nodes of the set by (clockwise distance from home to
      the node's nearest position, node id), in that order. */
  ghost predicate IsPlacement(p: Scheme, home: u64, nodes: set<u64>, k: nat, list: seq<u64>)
    requires p.vnodes >= 1
  {
    Selects(Keys(p, home, nodes), k, list)
  }

  /** `Nearest` is a minimum that some position attains. */
  lemma {:induction false} NearestIsMin(p: Scheme, home: u64, node: u64, k: u32)
    requires 1 <= k
    ensures exists vi: u32 :: vi < k && Nearest(p, home, node, k) == Clockwise(home, p.Position(node, vi))
    ensures forall vi: u32 | vi < k :: Nearest(p, home, node, k) <= Clockwise(home, p.Position(node, vi))
  {
    assert k - 1 < k && (k == 1 ==> Nearest(p, home, node, k) == Clockwise(home, p.Position(node, k - 1)));
    if k > 1 {
      NearestIsMin(p, home, node, k - 1);
      var vi: u32 :| vi < k - 1 && Nearest(p, home, node, k - 1) == Clockwise(home, p.Position(node, vi));
      assert vi < k;
    }
  }

  lemma {:induction false} KeysSize(ks: KeyMap)
    ensures |ks.Values| == |ks|
    decreases |ks|
  {
    if ks.Keys != {} {
      var n :| n in ks;
      var rest := ks - {n};
      KeysSize(rest);
      assert ks.Values == rest.Values + {ks[n]};
      assert |rest| == |ks| - 1 by { assert rest.Keys == ks.Keys - {n}; }
    }
  }

  // ---- the ring -------------------------------------------------------------

  /** Ring entries are (position, node) pairs: `id` the node, `score` the position. */
  datatype Ring = Ring(vnodes: seq<Hit>, nodeCount: nat)

  ghost predicate IsEntry(p: Scheme, nodes: set<u64>, h: Hit) {
    h.id in nodes && exists vi: u32 :: vi < p.vnodes && h.score == p.Position(h.id, vi)
  }

  /** A ring holds every position of every node, sorted by position then node. */
  ghost predicate IsRing(p: Scheme, nodes: set<u64>, ring: Ring) {
    && ring.nodeCount == |nodes|
    && Sorted(AtMost, ring.vnodes)
    && forall h :: h in ring.vnodes <==> IsEntry(p, nodes, h)
  }

  method NewRing(p: Scheme, nodes: set<u64>) returns (ring: Ring)
    ensures IsRing(p, nodes, ring)
  {
    var v: seq<Hit> := [];
    var todo := nodes;
    while todo != {}
      invariant todo <= nodes
      invariant forall h :: h in v <==> IsEntry(p, nodes - todo, h)
      decreases todo
    {
      var node :| node in todo;
      ghost var before := v;
      var vi := 0;
      while vi < p.vnodes
        invariant 0 <= vi <= p.vnodes
        invariant forall h :: h in v <==> h in before || (h.id == node && exists i: u32 :: i < vi && h.score == p.Position(node, i))
      {
        v := v + [Hit(node, p.Position(node, vi))];
        vi := vi + 1;
      }
      todo := todo - {node};
    }
    assert nodes - todo == nodes;
    Orders();
    SortSpec(AtMost, v);
    SameElements(v, Sort(AtMost, v));
    assert forall h :: h in Sort(AtMost, v) <==> h in Elems(v);
    ring := Ring(Sort(AtMost, v), |nodes|);
  }

  /** `partition_point`: how many entries of the sorted ring lie before `home`. */
  function EntriesBefore(vs: seq<Hit>, home: u64): (k: nat)
    ensures k <= |vs|
  {
    if vs == [] then 0
    else if vs[|vs| - 1].score < home then |vs|
    else EntriesBefore(vs[..|vs| - 1], home)
  }

  lemma {:induction false} EntriesBeforeSplits(vs: seq<Hit>, home: u64)
    requires Sorted(AtMost, vs)
    ensures forall i | 0 <= i < |vs| :: vs[i].score < home <==> i < EntriesBefore(vs, home)
    decreases |vs|
  {
    if vs != [] && vs[|vs| - 1].score >= home {
      EntriesBeforeSplits(vs[..|vs| - 1], home);
    }
  }

  /** The `step`-th entry of the cyclic walk. */
  function WalkAt(vs: seq<Hit>, start: nat, step: nat): Hit
    requires start < |vs| && step < |vs|
  {
    vs[if start + step < |vs| then start + step else start + step - |vs|]
  }

  function Start(vs: seq<Hit>, home: u64): (s: nat)
    requires vs != []
    ensures s < |vs|
  {
    var k := EntriesBefore(vs, home);
    if k == |vs| then 0 else k
  }

  /** An entry with its position replaced by its clockwise distance. */
  function Turned(home: u64, h: Hit): Hit
    requires 0 <= h.score < U64
  {
    Hit(h.id, Clockwise(home, h.score))
  }

  ghost predicate Positions(vs: seq<Hit>) { forall i | 0 <= i < |vs| :: 0 <= vs[i].score < U64 }

  /** The source's `% n` on an index that has passed the end at most once. */
  method WrapIndex(i: nat, n: nat) returns (r: nat)
    requires i < 2 * n
    ensures r == if i < n then i else i - n
  {
    r := i % n;
  }

  lemma TurnedOrder(home: u64, a: Hit, b: Hit)
    requires 0 <= a.score < U64 && 0 <= b.score < U64
    requires a.score >= home > b.score || (AtMost(a, b) && (a.score >= home <==> b.score >= home))
    ensures AtMost(Turned(home, a), Turned(home, b))
  {}

  /** The walk visits entries in order of clockwise distance, then node id. */
  lemma WalkAscends(vs: seq<Hit>, home: u64, i: nat, j: nat)
    requires vs != [] && Sorted(AtMost, vs) && Positions(vs) && i < j < |vs|
    ensures AtMost(Turned(home, WalkAt(vs, Start(vs, home), i)), Turned(home, WalkAt(vs, Start(vs, home), j)))
  {
    EntriesBeforeSplits(vs, home);
    var s := Start(vs, home);
    TurnedOrder(home, WalkAt(vs, s, i), WalkAt(vs, s, j));
  }

  /** The whole walk, with clockwise distances. */
  ghost function Walk(vs: seq<Hit>, home: u64): (w: seq<Hit>)
    requires vs != [] && Positions(vs)
    ensures |w| == |vs| && forall i | 0 <= i < |vs| :: w[i] == Turned(home, WalkAt(vs, Start(vs, home), i))
  {
    seq(|vs|, i requires 0 <= i < |vs| => Turned(home, WalkAt(vs, Start(vs, home), i)))
  }

  /** Every entry is on the walk. */
  lemma WalkCovers(vs: seq<Hit>, home: u64, h: Hit)
    requires vs != [] && Positions(vs) && h in vs
    ensures Turned(home, h) in Walk(vs, home)
  {
    var start := Start(vs, home);
    var i :| 0 <= i < |vs| && vs[i] == h;
    var step := if start <= i then i - start else i + |vs| - start;
    assert Walk(vs, home)[step] == Turned(home, h);
  }

  // ---- first occurrences along a sorted walk --------------------------------

  /** A sorted walk on which each keyed node's first entry is its key. */
  ghost predicate Walkable(ks: KeyMap, w: seq<Hit>) {
    && Sorted(AtMost, w)
    && (forall n | n in ks :: ks[n] in w)
    && (forall i | 0 <= i < |w| :: w[i].id in ks && AtMost(ks[w[i].id], w[i]))
  }

  ghost predicate Seen(w: seq<Hit>, i: nat, h: Hit)
    requires i <= |w|
  {
    exists g :: 0 <= g < i && w[g] == h
  }

  /** `r` lists the distinct nodes of the first `i` entries in order of appearance. */
  ghost predicate Walked(ks: KeyMap, w: seq<Hit>, i: nat, r: seq<u64>)
    requires i <= |w|
  {
    && (forall t | 0 <= t < |r| :: r[t] in ks && Seen(w, i, ks[r[t]]))
    && (forall f | 0 <= f < i :: w[f].id in r)
    && StrictlySorted(Keyed(ks, r))
  }

  /** A node not met in the first `i` entries has its key at or after entry `i`. */
  lemma UnseenIsLater(ks: KeyMap, w: seq<Hit>, i: nat, r: seq<u64>, node: u64) returns (f: nat)
    requires Walkable(ks, w) && i <= |w| && Walked(ks, w, i, r) && node in ks && node !in r
    ensures i <= f < |w| && w[f] == ks[node]
  {
    f :| 0 <= f < |w| && w[f] == ks[node];
  }

  lemma WalkStep(ks: KeyMap, w: seq<Hit>, i: nat, r: seq<u64>)
    requires Walkable(ks, w) && i < |w| && Walked(ks, w, i, r)
    ensures w[i].id in ks
    ensures Walked(ks, w, i + 1, if w[i].id in r then r else r + [w[i].id])
  {
    if w[i].id in r { SeenStays(ks, w, i, r); } else { WalkNew(ks, w, i, r); }
  }

  lemma SeenStays(ks: KeyMap, w: seq<Hit>, i: nat, r: seq<u64>)
    requires i < |w| && forall t | 0 <= t < |r| :: r[t] in ks && Seen(w, i, ks[r[t]])
    ensures forall t | 0 <= t < |r| :: Seen(w, i + 1, ks[r[t]])
  {
    forall t | 0 <= t < |r| ensures Seen(w, i + 1, ks[r[t]]) { var g :| 0 <= g < i && w[g] == ks[r[t]]; }
  }

  lemma WalkNew(ks: KeyMap, w: seq<Hit>, i: nat, r: seq<u64>)
    requires Walkable(ks, w) && i < |w| && Walked(ks, w, i, r) && w[i].id !in r
    ensures Walked(ks, w, i + 1, r + [w[i].id])
  {
    var node, more := w[i].id, r + [w[i].id];
    NewNodeIsNext(ks, w, i, r);
    SeenStays(ks, w, i, r);
    assert Seen(w, i + 1, w[i]) && more[|r|] == node;
    forall f | 0 <= f < i + 1 ensures w[f].id in more { assert f < i ==> w[f].id in r; }
  }

  /** A node met for the first time is met at its key, behind all nodes met before. */
  lemma NewNodeIsNext(ks: KeyMap, w: seq<Hit>, i: nat, r: seq<u64>)
    requires Walkable(ks, w) && i < |w| && Walked(ks, w, i, r) && w[i].id !in r
    ensures w[i].id in ks && w[i] == ks[w[i].id]
    ensures StrictlySorted(Keyed(ks, r + [w[i].id]))
  {
    var f := UnseenIsLater(ks, w, i, r, w[i].id);
    assert w[i] == ks[w[i].id];
    forall t | 0 <= t < |r| ensures Before(ks[r[t]], w[i]) { MetComesBefore(ks, w, i, r, t); }
    KeyedSnoc(ks, r, w[i].id);
  }

  lemma MetComesBefore(ks: KeyMap, w: seq<Hit>, i: nat, r: seq<u64>, t: nat)
    requires Walkable(ks, w) && i < |w| && Walked(ks, w, i, r) && w[i].id !in r && t < |r|
    ensures Before(ks[r[t]], w[i])
  {
    assert r[t] in r && Seen(w, i, ks[r[t]]);
    var g :| 0 <= g < i && w[g] == ks[r[t]];
  }

  lemma KeyedSnoc(ks: KeyMap, r: seq<u64>, node: u64)
    requires (forall t | 0 <= t < |r| :: r[t] in ks) && node in ks && StrictlySorted(Keyed(ks, r))
    requires forall t | 0 <= t < |r| :: Before(ks[r[t]], ks[node])
    ensures StrictlySorted(Keyed(ks, r + [node]))
  {
    var hs, hs' := Keyed(ks, r), Keyed(ks, r + [node]);
    forall a, b | 0 <= a < b < |hs'| ensures Before(hs'[a], hs'[b]) {
      if b < |r| { assert Before(hs[a], hs[b]); }
    }
  }

  /** Stopping the walk anywhere selects as many nodes as were met. */
  lemma WalkedSelects(ks: KeyMap, w: seq<Hit>, i: nat, r: seq<u64>)
    requires Walkable(ks, w) && i <= |w| && Walked(ks, w, i, r)
    ensures Selects(ks, |r|, r) && |r| <= |ks|
    ensures i == |w| ==> |r| == |ks|
  {
    var hs := Keyed(ks, r);
    forall h | h in Elems(hs) ensures h in ks.Values {
      var t :| 0 <= t < |hs| && hs[t] == h;
      assert r[t] in ks;
    }
    StrictlySortedDistinct(hs);
    DistinctSize(hs);
    SubsetSize(Elems(hs), ks.Values);
    KeysSize(ks);
    forall h, x | h in ks.Values && h !in hs && x in hs ensures Before(x, h) { UnmetComesAfter(ks, w, i, r, h); }
    forall h | h in ks.Values && h !in hs ensures i < |w| { UnmetComesAfter(ks, w, i, r, h); }
    if i == |w| {
      assert ks.Values <= Elems(hs);
      SubsetSize(ks.Values, Elems(hs));
    }
  }

  lemma UnmetComesAfter(ks: KeyMap, w: seq<Hit>, i: nat, r: seq<u64>, h: Hit)
    requires Walkable(ks, w) && i <= |w| && Walked(ks, w, i, r)
    requires h in ks.Values && h !in Keyed(ks, r)
    ensures i < |w| && forall x | x in Keyed(ks, r) :: Before(x, h)
  {}

  // ---- the walk computes the placement --------------------------------------

  lemma RingPositions(p: Scheme, nodes: set<u64>, ring: Ring)
    requires IsRing(p, nodes, ring)
    ensures Positions(ring.vnodes)
    ensures ring.vnodes == [] <==> nodes == {} || p.vnodes == 0
  {
    forall i | 0 <= i < |ring.vnodes| ensures 0 <= ring.vnodes[i].score < U64 { assert IsEntry(p, nodes, ring.vnodes[i]); }
    if nodes != {} && p.vnodes > 0 {
      var n :| n in nodes;
      assert IsEntry(p, nodes, Hit(n, p.Position(n, 0)));
      assert Hit(n, p.Position(n, 0)) in ring.vnodes;
    }
    if ring.vnodes != [] { assert IsEntry(p, nodes, ring.vnodes[0]); }
  }

  /** The turned walk of a ring carries each node's distance as its first entry. */
  lemma RingWalkable(p: Scheme, home: u64, nodes: set<u64>, ring: Ring)
    requires p.vnodes >= 1 && IsRing(p, nodes, ring) && ring.vnodes != [] && Positions(ring.vnodes)
    ensures Walkable(Keys(p, home, nodes), Walk(ring.vnodes, home))
  {
    var ks, w := Keys(p, home, nodes), Walk(ring.vnodes, home);
    forall i, j | 0 <= i < j < |w| ensures AtMost(w[i], w[j]) { WalkAscends(ring.vnodes, home, i, j); }
    forall n | n in ks ensures ks[n] in w { KeyOnWalk(p, home, nodes, ring, n); }
    forall i | 0 <= i < |w| ensures w[i].id in ks && AtMost(ks[w[i].id], w[i]) {
      var h := WalkAt(ring.vnodes, Start(ring.vnodes, home), i);
      assert h in ring.vnodes;
      assert IsEntry(p, nodes, h);
      NearestIsMin(p, home, h.id, p.vnodes);
    }
  }

  lemma KeyOnWalk(p: Scheme, home: u64, nodes: set<u64>, ring: Ring, n: u64)
    requires p.vnodes >= 1 && IsRing(p, nodes, ring) && ring.vnodes != [] && Positions(ring.vnodes) && n in nodes
    ensures Keys(p, home, nodes)[n] in Walk(ring.vnodes, home)
  {
    NearestIsMin(p, home, n, p.vnodes);
    var vi: u32 :| vi < p.vnodes && Nearest(p, home, n, p.vnodes) == Clockwise(home, p.Position(n, vi));
    var h := Hit(n, p.Position(n, vi));
    assert IsEntry(p, nodes, h);
    WalkCovers(ring.vnodes, home, h);
  }

  /** The replica list: exactly the `n` nearest distinct nodes, wraparound and hash
      ties included. A replication factor of zero yields every node. */
  method ReplicasForShard(p: Scheme, ring: Ring, collection: seq<byte>, shard: u32, n: u32, ghost nodes: set<u64>)
    returns (replicas: seq<u64>)
    requires IsRing(p, nodes, ring)
    ensures nodes == {} || p.vnodes == 0 ==> replicas == []
    ensures p.vnodes >= 1 ==> IsPlacement(p, p.Home(collection, shard), nodes, if n == 0 then |nodes| else n, replicas)
  {
    RingPositions(p, nodes, ring);
    if ring.vnodes == [] {
      if p.vnodes >= 1 { KeysSize(Keys(p, p.Home(collection, shard), nodes)); }
      return [];
    }
    var home := p.Home(collection, shard);
    RingWalkable(p, home, nodes, ring);
    assert |Keys(p, home, nodes)| == |nodes| by { assert Keys(p, home, nodes).Keys == nodes; }
    KeysSize(Keys(p, home, nodes));
    var start := WrapIndex(EntriesBefore(ring.vnodes, home), |ring.vnodes|);
    assert start == Start(ring.vnodes, home);
    replicas := Collect(ring.vnodes, start, Min(n, ring.nodeCount), Keys(p, home, nodes), Walk(ring.vnodes, home));
  }

  method EntryAt(vs: seq<Hit>, start: nat, step: nat) returns (h: Hit)
    requires start < |vs| && step < |vs|
    ensures h == WalkAt(vs, start, step)
  {
    var at := WrapIndex(start + step, |vs|);
    h := vs[at];
  }

  /** The cyclic loop with its early exit, along a walk `w` of the entries. */
  method Collect(vs: seq<Hit>, start: nat, want: nat, ghost ks: KeyMap, ghost w: seq<Hit>) returns (replicas: seq<u64>)
    requires start < |vs| == |w| && Walkable(ks, w) && want <= |ks|
    requires forall i | 0 <= i < |vs| :: w[i].id == WalkAt(vs, start, i).id
    ensures Selects(ks, if want == 0 then |ks| else want, replicas)
  {
    replicas := [];
    for step := 0 to |vs|
      invariant Walked(ks, w, step, replicas)
      invariant want > 0 ==> |replicas| < want
    {
      var pushed;
      replicas, pushed := Visit(vs, start, step, replicas, ks, w);
      if pushed && |replicas| == want {
        WalkedSelects(ks, w, step + 1, replicas);
        return;
      }
    }
    WalkedSelects(ks, w, |vs|, replicas);
  }

  /** One entry of the walk: its node joins the list unless it is there already. */
  method Visit(vs: seq<Hit>, start: nat, step: nat, replicas: seq<u64>, ghost ks: KeyMap, ghost w: seq<Hit>) returns (more: seq<u64>, pushed: bool)
    requires start < |vs| == |w| && step < |vs| && Walkable(ks, w) && Walked(ks, w, step, replicas)
    requires w[step].id == WalkAt(vs, start, step).id
    ensures Walked(ks, w, step + 1, more) && |more| == |replicas| + if pushed then 1 else 0
  {
    WalkStep(ks, w, step, replicas);
    var entry := EntryAt(vs, start, step);
    var node: u64 := entry.id;
    pushed := node !in replicas;
    more := if pushed then replicas + [node] else replicas;
  }

  // ---- minimal movement -----------------------------------------------------

  lemma TopKPrefix(cands: set<Hit>, k: nat, out: seq<Hit>, m: nat)
    requires IsTopK(cands, k, out) && m <= |out|
    ensures IsTopK(cands, m, out[..m])
  {}

  /** Erasing one item from a top list leaves the top list of the others. */
  lemma TopKErase(cands: set<Hit>, x: Hit, k: nat, out: seq<Hit>, i: nat)
    requires x !in cands && IsTopK(cands + {x}, k, out) && i < |out| && out[i] == x
    ensures IsTopK(cands, |out| - 1, out[..i] + out[i + 1..])
  {}

  lemma TopKWithout(cands: set<Hit>, x: Hit, k: nat, out: seq<Hit>)
    requires x !in cands && IsTopK(cands + {x}, k, out) && x !in out
    ensures IsTopK(cands, k, out)
  {
    StrictlySortedDistinct(out);
    DistinctSize(out);
    forall h | h in Elems(out) ensures h in cands {}
    SubsetSize(Elems(out), cands);
  }

  /** How one newcomer changes a top list. */
  lemma TopKAdd(cands: set<Hit>, x: Hit, k: nat, before: seq<Hit>, after: seq<Hit>)
    requires x !in cands && IsTopK(cands, k, before) && IsTopK(cands + {x}, k, after)
    ensures x !in after ==> after == before
    ensures x in after ==>
              exists i :: 0 <= i < |after| && after[i] == x && |after| - 1 <= |before| && after[..i] + after[i + 1..] == before[..|after| - 1]
  {
    if x !in after {
      TopKWithout(cands, x, k, after);
      TopKUnique(cands, k, after, before);
    } else {
      var i :| 0 <= i < |after| && after[i] == x;
      TopKErase(cands, x, k, after, i);
      TopKPrefix(cands, k, before, |after| - 1);
      TopKUnique(cands, |after| - 1, after[..i] + after[i + 1..], before[..|after| - 1]);
    }
  }

  lemma KeyedInjective(ks: KeyMap, a: seq<u64>, b: seq<u64>)
    requires forall i | 0 <= i < |a| :: a[i] in ks
    requires forall i | 0 <= i < |b| :: b[i] in ks
    requires Keyed(ks, a) == Keyed(ks, b)
    ensures a == b
  {}

  /** `after` is `before` with `x` spliced in at `i` and at most the last member dropped. */
  ghost predicate Spliced(before: seq<u64>, after: seq<u64>, x: u64, i: nat) {
    && i < |after| && after[i] == x && |after| - 1 <= |before| <= |after|
    && after[..i] + after[i + 1..] == before[..|after| - 1]
  }

  lemma UnkeySplice(ks: KeyMap, before: seq<u64>, after: seq<u64>, i: nat)
    requires forall t | 0 <= t < |before| :: before[t] in ks
    requires forall t | 0 <= t < |after| :: after[t] in ks
    requires i < |after| && |after| - 1 <= |before|
    requires Keyed(ks, after)[..i] + Keyed(ks, after)[i + 1..] == Keyed(ks, before)[..|after| - 1]
    ensures after[..i] + after[i + 1..] == before[..|after| - 1]
  {}

  lemma SelectionSplices(ks: KeyMap, x: u64, kx: Hit, n: nat, before: seq<u64>, after: seq<u64>)
    requires x !in ks && kx.id == x && Selects(ks, n, before) && Selects(ks[x := kx], n, after)
    ensures x !in after ==> after == before
    ensures x in after ==> exists i: nat :: Spliced(before, after, x, i)
  {
    var ks' := ks[x := kx];
    var kb, ka := Keyed(ks, before), Keyed(ks', after);
    assert ks'.Values == ks.Values + {kx};
    assert Keyed(ks', before) == kb;
    KeysSize(ks);
    KeysSize(ks');
    TopKAdd(ks.Values, kx, n, kb, ka);
    assert x in after <==> kx in ka by {
      if x in after { var i :| 0 <= i < |after| && after[i] == x; assert ka[i] == kx; }
      if kx in ka { var i :| 0 <= i < |ka| && ka[i] == kx; assert after[i] == x; }
    }
    if kx in ka {
      var i: nat :| 0 <= i < |ka| && ka[i] == kx && |ka| - 1 <= |kb| && ka[..i] + ka[i + 1..] == kb[..|ka| - 1];
      UnkeySplice(ks', before, after, i);
      assert Spliced(before, after, x, i);
    } else {
      KeyedInjective(ks', before, after);
    }
  }

  /** Minimal movement. When a node joins, a shard's replica list either stays the
      same or gains the newcomer and loses at most its last member; the others
      keep their order. Read backwards it says the same of a node that leaves. */
  lemma JoinMovesMinimally(p: Scheme, home: u64, nodes: set<u64>, x: u64, n: nat, before: seq<u64>, after: seq<u64>)
    requires p.vnodes >= 1 && x !in nodes
    requires IsPlacement(p, home, nodes, n, before) && IsPlacement(p, home, nodes + {x}, n, after)
    ensures x !in after ==> after == before
    ensures x in after ==> exists i: nat :: Spliced(before, after, x, i)
  {
    var kx := Hit(x, Nearest(p, home, x, p.vnodes));
    assert Keys(p, home, nodes + {x}) == Keys(p, home, nodes)[x := kx];
    SelectionSplices(Keys(p, home, nodes), x, kx, n, before, after);
  }

  /** With at least two replicas the old home always stays one, so a newcomer has a
      previous holder to pull from. */
  lemma JoinRetainsHome(p: Scheme, home: u64, nodes: set<u64>, x: u64, n: nat, before: seq<u64>, after: seq<u64>)
    requires p.vnodes >= 1 && x !in nodes && nodes != {} && n >= 2
    requires IsPlacement(p, home, nodes, n, before) && IsPlacement(p, home, nodes + {x}, n, after)
    ensures before != [] && before[0] in after
  {
    JoinMovesMinimally(p, home, nodes, x, n, before, after);
    PlacementSize(p, home, nodes, n, before);
    PlacementSize(p, home, nodes + {x}, n, after);
    assert |nodes + {x}| == |nodes| + 1;
    if x in after {
      var i: nat :| Spliced(before, after, x, i);
      SpliceKeepsFirst(before, after, x, i);
    }
  }

  lemma PlacementSize(p: Scheme, home: u64, nodes: set<u64>, n: nat, list: seq<u64>)
    requires p.vnodes >= 1 && IsPlacement(p, home, nodes, n, list)
    ensures |list| == Min(n, |nodes|)
  {
    KeysSize(Keys(p, home, nodes));
    assert Keys(p, home, nodes).Keys == nodes;
  }

  lemma SpliceKeepsFirst(before: seq<u64>, after: seq<u64>, x: u64, i: nat)
    requires Spliced(before, after, x, i) && before != [] && |after| >= 2
    ensures before[0] in after
  {
    assert (after[..i] + after[i + 1..])[0] == before[0];
  }
}
