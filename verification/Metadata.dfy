/** The metadata state machine (crates/qv-cluster/src/meta.rs). */
module Metadata {
  import opened Bytes

  datatype Metric = L2 | Cosine
  datatype ShardState = Active | Syncing | Dead
  datatype Schema = Schema(dim: u32, metric: Metric, shardCount: u32, replicationN: u32)
  datatype Replica = Replica(collection: string, shard: u32, node: u64)

  datatype Request =
    | RegisterNode(node: u64, addr: string)
    | DeregisterNode(node: u64)
    | CreateCollection(name: string, schema: Schema)
    | DropCollection(name: string)
    | SetShardState(replica: Replica, state: ShardState)
    | Noop

  /** `shardStates` holds overrides only: an absent replica is Active. */
  datatype MetaState = MetaState(nodes: map<u64, string>, collections: map<string, Schema>, shardStates: map<Replica, ShardState>) {
    function StateOf(r: Replica): ShardState { if r in shardStates then shardStates[r] else Active }
  }

  const EMPTY := MetaState(map[], map[], map[])

  function Without(m: map<Replica, ShardState>, gone: Replica -> bool): map<Replica, ShardState> {
    map r | r in m && !gone(r) :: m[r]
  }

  function Apply(s: MetaState, req: Request): MetaState {
    match req
    case RegisterNode(n, a) => s.(nodes := s.nodes[n := a])
    case DeregisterNode(n) => s.(nodes := s.nodes - {n}, shardStates := Without(s.shardStates, (r: Replica) => r.node == n))
    case CreateCollection(c, schema) => if c in s.collections then s else s.(collections := s.collections[c := schema])
    case DropCollection(c) =>
      s.(collections := s.collections - {c}, shardStates := Without(s.shardStates, (r: Replica) => r.collection == c))
    case SetShardState(r, st) =>
      s.(shardStates := if st == Active then s.shardStates - {r} else s.shardStates[r := st])
    case Noop => s
  }

  function Note(s: MetaState, req: Request): string {
    match req
    case RegisterNode(_, _) => "registered"
    case DeregisterNode(_) => "deregistered"
    case CreateCollection(c, _) => if c in s.collections then "exists" else "created"
    case DropCollection(c) => if c in s.collections then "dropped" else "absent"
    case SetShardState(_, _) => "shard-state-set"
    case Noop => "noop"
  }

  function Fold(reqs: seq<Request>): MetaState {
    if reqs == [] then EMPTY else Apply(Fold(reqs[..|reqs| - 1]), reqs[|reqs| - 1])
  }

  // ---- what the folded state means ------------------------------------------

  /** The requests that can change a replica's state. */
  predicate TouchesReplica(req: Request, r: Replica) {
    match req
    case SetShardState(x, _) => x == r
    case DropCollection(c) => c == r.collection
    case DeregisterNode(n) => n == r.node
    case _ => false
  }

  predicate TouchesNode(req: Request, n: u64) {
    match req
    case RegisterNode(m, _) => m == n
    case DeregisterNode(m) => m == n
    case _ => false
  }

  predicate NamesCollection(req: Request, c: string) {
    match req
    case CreateCollection(d, _) => d == c
    case DropCollection(d) => d == c
    case _ => false
  }

  /** The `i`-th request is the last one that touches the replica. */
  ghost predicate LastTouch(reqs: seq<Request>, i: nat, r: Replica) {
    i < |reqs| && TouchesReplica(reqs[i], r) && forall j | i < j < |reqs| :: !TouchesReplica(reqs[j], r)
  }

  /** A replica's state is what the last request touching it says: the state it sets,
      or Active if it was a drop of the collection or a deregistration of the node. */
  lemma {:induction false} ReplicaStateIsLastWord(reqs: seq<Request>, r: Replica, i: nat)
    requires LastTouch(reqs, i, r)
    ensures Fold(reqs).StateOf(r) == if reqs[i].SetShardState? then reqs[i].state else Active
    decreases |reqs|
  {
    var n := |reqs| - 1;
    if i < n {
      assert LastTouch(reqs[..n], i, r);
      ReplicaStateIsLastWord(reqs[..n], r, i);
      UntouchedReplica(Fold(reqs[..n]), reqs[n], r);
    }
  }

  /** A replica no request ever touched is Active. */
  lemma {:induction false} UntouchedIsActive(reqs: seq<Request>, r: Replica)
    requires forall i | 0 <= i < |reqs| :: !TouchesReplica(reqs[i], r)
    ensures Fold(reqs).StateOf(r) == Active
    decreases |reqs|
  {
    if reqs != [] {
      var n := |reqs| - 1;
      UntouchedIsActive(reqs[..n], r);
      UntouchedReplica(Fold(reqs[..n]), reqs[n], r);
    }
  }

  lemma UntouchedReplica(s: MetaState, req: Request, r: Replica)
    requires !TouchesReplica(req, r)
    ensures Apply(s, req).StateOf(r) == s.StateOf(r)
  {}

  ghost predicate LastTouchOfNode(reqs: seq<Request>, i: nat, n: u64) {
    i < |reqs| && TouchesNode(reqs[i], n) && forall j | i < j < |reqs| :: !TouchesNode(reqs[j], n)
  }

  /** A node's address is the last one registered since it was last removed. */
  lemma {:induction false} NodeIsLastWord(reqs: seq<Request>, n: u64, i: nat)
    requires LastTouchOfNode(reqs, i, n)
    ensures n in Fold(reqs).nodes <==> reqs[i].RegisterNode?
    ensures reqs[i].RegisterNode? ==> Fold(reqs).nodes[n] == reqs[i].addr
    decreases |reqs|
  {
    var k := |reqs| - 1;
    if i < k {
      assert LastTouchOfNode(reqs[..k], i, n);
      NodeIsLastWord(reqs[..k], n, i);
    }
  }

  /** A node no request ever named is not registered. */
  lemma {:induction false} UntouchedNodeAbsent(reqs: seq<Request>, n: u64)
    requires forall i | 0 <= i < |reqs| :: !TouchesNode(reqs[i], n)
    ensures n !in Fold(reqs).nodes
    decreases |reqs|
  {
    if reqs != [] { UntouchedNodeAbsent(reqs[..|reqs| - 1], n); }
  }

  ghost predicate DroppedSince(reqs: seq<Request>, j: nat, c: string) {
    exists k :: j <= k < |reqs| && reqs[k] == DropCollection(c)
  }

  /** Every mention of the collection was followed by a drop: it does not exist now. */
  ghost predicate AllDropped(reqs: seq<Request>, c: string) {
    forall j | 0 <= j < |reqs| && NamesCollection(reqs[j], c) :: DroppedSince(reqs, j, c)
  }

  /** The `i`-th request creates the collection and no earlier creation is in force. */
  ghost predicate FirstCreate(reqs: seq<Request>, i: nat, c: string) {
    i < |reqs| && reqs[i].CreateCollection? && reqs[i].name == c && AllDropped(reqs[..i], c)
  }

  /** A schema is fixed by the first creation since the last drop; later creations
      under the same name change nothing. */
  lemma {:induction false} SchemaIsFirstCreate(reqs: seq<Request>, c: string, i: nat)
    requires FirstCreate(reqs, i, c) && forall j | i < j < |reqs| :: reqs[j] != DropCollection(c)
    ensures c in Fold(reqs).collections && Fold(reqs).collections[c] == reqs[i].schema
    decreases |reqs|
  {
    var k := |reqs| - 1;
    var init := reqs[..k];
    if i < k {
      assert init[..i] == reqs[..i] && init[i] == reqs[i];
      assert forall j | i < j < k :: init[j] == reqs[j];
      SchemaIsFirstCreate(init, c, i);
    } else {
      AbsentUntilCreated(init, c);
    }
  }

  lemma AllDroppedInit(reqs: seq<Request>, c: string)
    requires reqs != [] && AllDropped(reqs, c) && reqs[|reqs| - 1] != DropCollection(c)
    ensures !NamesCollection(reqs[|reqs| - 1], c) && AllDropped(reqs[..|reqs| - 1], c)
  {}

  lemma {:induction false} AbsentUntilCreated(reqs: seq<Request>, c: string)
    requires AllDropped(reqs, c)
    ensures c !in Fold(reqs).collections
    decreases |reqs|
  {
    if reqs != [] && reqs[|reqs| - 1] != DropCollection(c) {
      AllDroppedInit(reqs, c);
      AbsentUntilCreated(reqs[..|reqs| - 1], c);
    }
  }

  /** The object: three maps changed in place. */
  class MetaTable {
    var nodes: map<u64, string>
    var collections: map<string, Schema>
    var shardStates: map<Replica, ShardState>

    function Value(): MetaState
      reads this
    {
      MetaState(nodes, collections, shardStates)
    }

    constructor (s: MetaState)
      ensures Value() == s
    {
      nodes, collections, shardStates := s.nodes, s.collections, s.shardStates;
    }

    method ApplyRequest(req: Request) returns (note: string)
      modifies this
      ensures Value() == Apply(old(Value()), req) && note == Note(old(Value()), req)
      ensures note == "created" <==> req.CreateCollection? && req.name !in old(collections) && req.name in collections
      ensures note == "dropped" <==> req.DropCollection? && req.name in old(collections) && req.name !in collections
    {
      match req
      case RegisterNode(n, a) =>
        nodes := nodes[n := a];
        note := "registered";
      case DeregisterNode(n) =>
        nodes := nodes - {n};
        shardStates := Without(shardStates, (r: Replica) => r.node == n);
        note := "deregistered";
      case CreateCollection(c, schema) =>
        if c in collections {
          note := "exists";
        } else {
          collections := collections[c := schema];
          note := "created";
        }
      case DropCollection(c) =>
        note := if c in collections then "dropped" else "absent";
        collections := collections - {c};
        shardStates := Without(shardStates, (r: Replica) => r.collection == c);
      case SetShardState(r, st) =>
        if st == Active {
          shardStates := shardStates - {r};
        } else {
          shardStates := shardStates[r := st];
        }
        note := "shard-state-set";
      case Noop =>
        note := "noop";
    }
  }
}
