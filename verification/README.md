# quorvec: a verified model

quorvec is a small distributed vector database. This project models its five
hard parts in Dafny and proves what they promise, for every input, every run or
every reachable state:

- **The HNSW index.** A layered graph changed in place: best-first search over two
  heaps, greedy descent, the pruning heuristic, back-edges, tombstones, a moving
  entry point. `HnswGraph`, `HnswLinks`, `HnswWiring`, `HnswInsert`, `HnswSearch`,
  `HnswIndexes`; the oracle it is compared with is `BruteForce`, and `TopK` is the
  common specification of "the k smallest".
- **The durable shard.** `FramedLog` specifies a byte log by its longest parse,
  without reference to a decoder; `Wal` and `Hints` are the two codecs; `Shards`,
  `ShardRuns` and `DurableShard` are the shard with snapshots, process kills and
  power losses at any byte, and recovery; `ShardIndex` puts the HNSW index behind it.
- **Leaderless replication.** `Clocks` (hybrid logical clocks), `Lww`
  (last-writer-wins contents as an algebra), `Replication` (the protocol as a step
  relation with its invariant), `Convergence` (theorems over whole runs), `Exactness`
  and `HintRace` (where they stop holding, and exactly when), `Coordinator` (the
  router's loops, each proved to be an execution of the protocol), `Interleaving` (the
  same operations with anything else in between), `HintBridge` (the hint file is the
  protocol's hint log).
- **Placement.** `Placement` compares the sorted-array cyclic walk with "nearest
  distinct nodes by clockwise distance" and proves minimal movement. `ScatterGather`
  is the search coordinator on top of it, and `GlobalSearch` compares it over HNSW
  shards with one scan of the whole collection.
- **Metadata.** `Metadata` is the state machine, `MetaStore` the store under the Raft
  log with batching, snapshots and restarts.

Distances are an uninterpreted function into the integers, an `f32` is four opaque
bytes, CRC32 and XXH64 are uninterpreted functions, and the level of a new node is a
function of the generator state. Wall clock readings, network outcomes and which
peers answer are parameters. Every pair of write and delivery is allowed to end in
one of three ways: applied and acknowledged, applied but not acknowledged, not
applied.

`dafny verify dfyconfig.toml` checks the whole project.

## Where the code and its promises differ

The model follows the code. Each of these is a lemma.

- `HlcClock::update` is documented to return a stamp strictly greater than the remote
  one. With the counter at 0xFFFF it can return the remote stamp itself
  (`Clocks.SaturatedUpdateDoesNotExceedRemote`); `Clocks.UpdateDominatesUnlessSaturated`
  gives the exact condition. `now` wraps to zero at the very last stamp
  (`Clocks.NowIncreasesUnlessExhausted`).
- `Wal::append` casts the frame length to `u32`; a record comes back from recovery
  exactly when it fits (`Wal.RoundTripIffFits`), and one that does not ends the log
  for good (`Wal.OversizedEndsLog`).
- The unversioned `Shard::upsert`/`delete` log and apply a stale record that replay
  then skips (`ShardRuns.LegacyWriteRecoversIff`, `ShardRuns.LegacyDeleteForgotten`).
- `Wal::recover` fsyncs only when it truncates and the reopened log counts as clean.
  After a process kill, surviving bytes may be in the page cache only; a snapshot taken
  before the next append (a blind snapshot) then stands for bytes that a power loss can still
  take, and a
  record written and fsynced afterwards can be skipped at the next open
  (`ShardRuns.BlindSnapshotLosesFlushed`). `ShardRuns.SnapshotSafeIff` and
  `Shards.CrashRecoversIff` give the exact conditions; the run theorems hold for every
  run without such a snapshot.
- `replay_hints` reads and rewrites the hint log under two separate lock acquisitions.
  A hint buffered in between is dropped, so an acknowledged write can stay missing at a
  replica with every hint log empty (`HintRace.ReplayCanLoseHint`);
  `HintRace.SplitReplaySafeIff` says exactly when nothing is endangered.
- A write whose coordinator stops before buffering its hints (a failed `buffer_hint`
  returns early) is repaired by no one (`HintRace.AbandonedWriteDiverges`). Replicas are
  bound to agree again exactly when a write at least as new was not abandoned
  (`Exactness.AgreementIff`).
- `docs/consistency.md` says reads route to Active replicas; `coordinate_get` reads the
  full replica set, and so does the model.
- With `replication_n` = 0 the ring walk returns every node
  (`Placement.ReplicasForShard` states it).

## Model

| member | source | states |
|---|---|---|
| `Clocks.PackIsOrderIsomorphism` | crates/qv-storage/src/hlc.rs:37-47 | pack and unpack are mutually inverse and packed integers order exactly like stamps |
| `Clocks.NowIncreasesUnlessExhausted` | crates/qv-storage/src/hlc.rs:86-102 | `now` exceeds the last stamp if and only if that was not the last representable one, and it issues the smallest stamp above both the last one and the wall reading |
| `Clocks.UpdateDominatesUnlessSaturated` | crates/qv-storage/src/hlc.rs:106-121 | `update` never goes below the local or remote stamp; it strictly exceeds both exactly when the wall is ahead of both or the larger one has counter room |
| `Clocks.UpdateIsLeast` | crates/qv-storage/src/hlc.rs:106-121 | where it can exceed both, `update` issues the least stamp above both and not behind the wall; where it cannot, the larger of the two itself |
| `Clocks.SaturatedUpdateDoesNotExceedRemote` | crates/qv-storage/src/hlc.rs:106-121 | a concrete remote stamp that `update` does not exceed |
| `Clocks.ClockDominatesHistory` | crates/qv-storage/src/hlc.rs:86-121 | over any run of calls the clock bounds every stamp issued and every remote stamp received |
| `Clocks.NowExceedsAllEarlier` | crates/qv-storage/src/hlc.rs:86-121 | in any interleaving, with any (even backward) wall readings, a stamp from `now` is strictly above every earlier local stamp and every ingested remote stamp |
| `Clocks.BoundedWallsNeverExhaust` | crates/qv-storage/src/hlc.rs:86-121 | runs whose walls and remote stamps stay below the 48-bit limit by the length of the run never exhaust the clock |
| `Clocks.HlcClock.Now` | crates/qv-storage/src/hlc.rs:86-102 | the method overwrites its stamp with the specified successor |
| `Clocks.HlcClock.Update` | crates/qv-storage/src/hlc.rs:106-121 | the method overwrites its stamp with the specified receive-rule successor |
| `FramedLog.Parse` | crates/qv-storage/src/wal.rs:203-254 | every byte string has a longest run of whole frames |
| `FramedLog.ParseUnique` | crates/qv-storage/src/wal.rs:203-254 | that run is unique for an injective record encoding, whatever the checksum |
| `FramedLog.PrefixParse` | crates/qv-storage/src/wal.rs:203-254 | any byte prefix of a log parses to exactly the records whose frames fit in it |
| `FramedLog.WholeRecordsMost` | crates/qv-storage/src/wal.rs:203-254 | a record is among those kept exactly when its last byte lies within the prefix |
| `FramedLog.ParseThenAppend` | crates/qv-storage/src/wal.rs:203-254 | recovering the truncated log gives the same records, and later appends extend that list |
| `Wal.WalBodiesInjective` | crates/qv-storage/src/wal.rs:101-114 | no two representable records share a body |
| `Wal.Encode` | crates/qv-storage/src/wal.rs:101-114 | the buffer pushes build the specified layout |
| `Wal.DecodeContent` | crates/qv-storage/src/wal.rs:289-329 | the bounds-checked cursor succeeds exactly when the two length fields account for every byte, and inverts the encoding |
| `Wal.Decode` | crates/qv-storage/src/wal.rs:267-329 | returns a record exactly when the body is some record's encoding, and then that one |
| `Wal.ReadFrame` | crates/qv-storage/src/wal.rs:219-244 | finds a frame at the start of the buffer exactly when there is one |
| `Wal.Recover` | crates/qv-storage/src/wal.rs:203-254 | returns the unique longest parse and truncates the file to exactly its frames |
| `Wal.RoundTripIffFits` | crates/qv-storage/src/wal.rs:167-184 | written behind any log, a record is recovered with it if and only if its frame length fits the u32 prefix |
| `Wal.OversizedEndsLog` | crates/qv-storage/src/wal.rs:203-254 | an oversized record ends the log for good: recovery returns exactly the records before it, whatever is appended later and whatever the checksum |
| `Wal.BodyPrefixFree` | crates/qv-storage/src/wal.rs:101-114 | no record body is a proper prefix of another |
| `Hints.HintBodiesInjective` | crates/qv-storage/src/hints.rs:146-165 | no two hints share a body |
| `Hints.DecodeHint` | crates/qv-storage/src/hints.rs:167-255 | returns a hint exactly when the body is some hint's encoding, and then that one |
| `Hints.ReadAll` | crates/qv-storage/src/hints.rs:95-129 | returns the longest parse of the hint file |
| `Hints.HintFile.BufferHint` | crates/qv-node/src/node_state.rs:55-59 | appends one frame; the file then holds the new hint behind the others if and only if it fits its length fields |
| `Hints.HintFile.ReadAllHints` | crates/qv-node/src/node_state.rs:72-75 | reads back exactly the buffered hints in order |
| `Hints.HintFile.RewriteHints` | crates/qv-node/src/node_state.rs:79-90 | afterwards the file holds exactly the kept hints |
| `Shards.FlushKeepsInv` | crates/qv-storage/src/wal.rs:187-194 | flushing keeps the shard equal to the one that accepted its log; it makes all of it durable if and only if the log was dirty or durable already |
| `Shards.SnapshotKeepsInv` | crates/qv-storage/src/shard.rs:334-354 | a snapshot at any point is exact for its WAL offset; that offset is on stable storage if and only if there was something to flush or nothing left unsynced |
| `Shards.AcceptKeepsInv` | crates/qv-storage/src/shard.rs:175-226 | so does a winning write, with its possible automatic snapshot |
| `Shards.ReplayRebuilds` | crates/qv-storage/src/shard.rs:126-134 | replaying the tail on a snapshot of any prefix equals full replay and the live memory |
| `Shards.CrashRecovers` | crates/qv-storage/src/shard.rs:84-150 | after any crash whose WAL still reaches the snapshot offset, `open` rebuilds exactly the shard that accepted the surviving whole records |
| `Shards.CrashRecoversIff` | crates/qv-storage/src/shard.rs:84-150 | the rebuilt memory is that of the surviving records if and only if the WAL reaches the snapshot offset |
| `Shards.FlushedRecordsSurvive` | crates/qv-storage/src/shard.rs:84-150 | every record flushed before the crash is among the survivors |
| `ShardRuns.StepKeepsInv` | crates/qv-storage/src/shard.rs:84-354 | every event but a blind snapshot (process kill or power loss at any byte, even in the middle of an append, included) keeps the invariant and never fails to reopen |
| `ShardRuns.RunMatchesSurvivingLog` | crates/qv-storage/src/shard.rs:84-354 | at every point of every run without a blind snapshot, index state, versions, WAL and snapshot are those of the surviving accepted records |
| `ShardRuns.FlushedNeverLost` | crates/qv-storage/src/shard.rs:84-354 | in such runs a flushed record stays through any number of later kills and power losses |
| `ShardRuns.SnapshotSafeIff` | crates/qv-storage/src/shard.rs:334-354 | a snapshot is safe against every following power loss if and only if it is not blind |
| `ShardRuns.BlindSnapshotLosesFlushed` | crates/qv-storage/src/wal.rs:247-253 | for any two records, the second no longer: a reachable shard that holds the second durably and loses it at the next open, after kill, reopen, snapshot and power loss |
| `ShardRuns.UnbatchedNeverLosesAcks` | crates/qv-storage/src/wal.rs:167-184 | with batching off, in such runs, an applied write and all accepted before it are never lost |
| `ShardRuns.InstallIsLwwApply` | crates/qv-storage/src/shard.rs:175-226 | a winning write is one last-writer-wins step on the streamed contents |
| `ShardRuns.SubmitIsLwwApply` | crates/qv-storage/src/shard.rs:175-226 | every write, winning or stale, is; the outcome says which; a wrong dimension changes nothing; an id stays live exactly when its version is not a tombstone |
| `ShardRuns.RunContents` | crates/qv-storage/src/shard.rs:175-308 | at every point of every run the shard holds the newest surviving write of every id, and the index exactly the live ones |
| `ShardRuns.LegacyWriteRecoversIff` | crates/qv-storage/src/shard.rs:231-274 | after an unversioned write, reopening rebuilds the live memory if and only if the record was not strictly older or a snapshot followed |
| `ShardRuns.LegacyDeleteForgotten` | crates/qv-storage/src/shard.rs:231-274 | a concrete stale delete that is forgotten on reopening |
| `DurableShard.Shard.FlushWal` | crates/qv-storage/src/wal.rs:187-194 | all bytes become durable |
| `DurableShard.Shard.AppendWal` | crates/qv-storage/src/wal.rs:167-184 | exactly one frame is appended, flushed at once when batching is off |
| `DurableShard.Shard.TakeSnapshot` | crates/qv-storage/src/shard.rs:334-354 | flush first, then replace the snapshot by the current memory at the WAL offset |
| `DurableShard.Shard.TakeSnapshotIfDue` | crates/qv-storage/src/shard.rs:357-368 | only when the threshold is set and reached |
| `DurableShard.Shard.UpsertVersioned` | crates/qv-storage/src/shard.rs:175-205 | the object takes exactly the specified versioned step, the one the run theorems are about |
| `DurableShard.Shard.DeleteVersioned` | crates/qv-storage/src/shard.rs:210-226 | likewise for deletes |
| `DurableShard.Shard.UpsertUnversioned` | crates/qv-storage/src/shard.rs:231-258 | takes the unversioned step, or none for a wrong dimension |
| `DurableShard.Shard.DeleteUnversioned` | crates/qv-storage/src/shard.rs:261-274 | takes the unversioned delete step |
| `DurableShard.Shard.Records` | crates/qv-storage/src/shard.rs:296-308 | lists every id once, tombstones included, with exactly the last-writer-wins contents |
| `DurableShard.Shard.OpenDir` | crates/qv-storage/src/shard.rs:84-150 | builds a fresh object equal to the specified recovery, durable as far as it was synced or truncated, or fails exactly when that does |
| `DurableShard.ReplayTail` | crates/qv-storage/src/shard.rs:126-134 | the running-offset loop applies exactly the records ending beyond the snapshot |
| `ShardIndex.HistoryObeysLaws` | crates/qv-storage/src/shard.rs:65-78 | an index named by its operation history meets the laws the shard theorems assume |
| `ShardIndex.RebuildAt` | crates/qv-storage/src/shard.rs:84-150 | at every point of every run without a blind snapshot the index has carried out exactly the operations of the surviving records, and the HNSW index they build is valid and live exactly where the version is not a tombstone |
| `Lww.LwwUnique` | crates/qv-storage/src/shard.rs:278-283 | when (id, hlc) determines the write, the newest-write map of a set of writes is unique |
| `Lww.ApplyIff` | crates/qv-storage/src/shard.rs:175-226 | a delivery takes its id's place exactly when the id is new or held at a strictly older stamp, and touches no other id |
| `Lww.ApplyAllIsLww` | crates/qv-storage/src/shard.rs:175-226 | applying writes one by one yields a newest-write map of all of them |
| `Lww.DeliveryOrderIrrelevant` | crates/qv-storage/src/shard.rs:175-226 | order and duplication of deliveries do not matter |
| `Lww.JoinIsLww` | crates/qv-node/src/router.rs:880-891 | the pointwise newest of two replicas is the newest-write map of both histories |
| `Lww.PullIsJoin` | crates/qv-node/src/router.rs:892-940 | a transfer interleaved in any order with live writes ends at the join of target, source and live writes |
| `Replication.CountIsLeast` | crates/qv-node/src/router.rs:89-96 | the count is the least number of answers that are enough, where enough means one for ONE, a strict majority for QUORUM and all for ALL |
| `Exactness.QuorumIsLeastMeeting` | crates/qv-node/src/router.rs:89-96 | the QUORUM count is the least size at which any two sets of that many replicas meet |
| `Replication.OverlapIff` | crates/qv-node/src/router.rs:89-96 | exactly which pairs of levels share a replica, for every replica count; the count lies between one and the replica count |
| `Replication.PushHintsLosesNothing` | crates/qv-node/src/router.rs:798-842 | in a replay pass stores only move forward, each pushed write is covered at its target and each other hint is kept |
| `Replication.PushHintsInventsNothing` | crates/qv-node/src/router.rs:798-842 | and nothing appears that was not stored or hinted |
| `Replication.ProgressKeepsInv` | crates/qv-node/src/router.rs:309-386 | what any step must respect for the safety invariant to survive it |
| `Replication.StepKeepsInv` | crates/qv-node/src/router.rs:309-587 | every protocol step (issue, deliver, answer, fail, buffer, finish, abandon, replay, read) keeps: each issued write is in flight, abandoned, or at every replica covered or hinted; acknowledgements and read answers stay justified |
| `Replication.ReadOneOk` | crates/qv-node/src/router.rs:460-496 | what a replica returns covers every write it acknowledged before the read began |
| `Convergence.RunKeepsInv` | crates/qv-node/src/router.rs:309-587 | the safety invariant holds in every state of every run |
| `Convergence.ReachableStep` | crates/qv-node/src/router.rs:309-587 | any enabled step extends any run |
| `Convergence.ReplicasAgree` | crates/qv-node/src/router.rs:309-386 | in every run, all replicas hold the same version of an id with no write in flight or hinted and every abandoned one superseded, and it is the newest ever issued |
| `Convergence.DrainedHintsConverge` | crates/qv-node/src/router.rs:798-842 | when hint logs are empty, nothing is in flight and every abandoned write is superseded, all replicas hold one store: the last-writer-wins maximum of everything issued |
| `Exactness.AgreementIff` | crates/qv-node/src/router.rs:309-386 | for two or more replicas and any history: replicas agree on an id in every reachable state where it is at rest if and only if every abandoned write of it is superseded by one not abandoned |
| `Convergence.AcknowledgedWritesAreRead` | crates/qv-node/src/router.rs:392-456 | in every run, a successful Get that begins after a write was acknowledged at an overlapping level selects a version at least as new, whatever is interleaved |
| `Exactness.ReadsSeeAcksIff` | crates/qv-node/src/router.rs:89-96 | for every nonempty replica set: no run lets a successful Get miss an earlier acknowledged write if and only if the two levels overlap |
| `Convergence.QuorumOverlapsQuorum` | crates/qv-node/src/router.rs:89-96 | QUORUM and QUORUM overlap for every replica count |
| `HintRace.SplitReplaySafeIff` | crates/qv-node/src/router.rs:798-842 | replay as locked in the code endangers no hinted write if and only if nothing was read or each hint buffered meanwhile had a target that was up to date, equals a read hint that was not pushed, is overtaken by a pushed one, or is held elsewhere |
| `HintRace.SafeAfterSplitIff` | crates/qv-node/src/router.rs:798-842 | the same, write by write: what a pass keeps and covers told from log, outcomes and stores alone |
| `HintRace.UndisturbedReplayIsAtomic` | crates/qv-node/src/node_state.rs:72-90 | with nothing buffered meanwhile it is one atomic protocol step |
| `HintRace.ReplayCanLoseHint` | crates/qv-node/src/router.rs:798-842 | a reachable state from which replay ends quiescent with an acknowledged write missing at a replica |
| `HintRace.AbandonedWriteDiverges` | crates/qv-node/src/router.rs:350-374 | a reachable state with nothing pending or hinted and replicas apart |
| `Coordinator.MissingIsComplement` | crates/qv-node/src/router.rs:332-345 | the unreachable list names, once each, exactly the replicas that did not acknowledge |
| `Coordinator.MissingAreHinted` | crates/qv-node/src/router.rs:350-374 | a write leaves one hint for each replica that did not acknowledge and no other |
| `Coordinator.Cluster.constructor` | crates/qv-node/src/router.rs:309-386 | a fresh cluster of empty replicas is a reachable state |
| `Coordinator.Cluster.Take` | crates/qv-node/src/router.rs:309-587 | one protocol step, staying among reachable states |
| `Coordinator.Cluster.WriteOneReplica` | crates/qv-node/src/router.rs:181-229 | what each of the three outcomes does to the replica and to the pending write |
| `Coordinator.Cluster.AskReplicas` | crates/qv-node/src/router.rs:332-345 | counts the acknowledging replicas and lists the others; each store applied the write exactly when it arrived |
| `Coordinator.Cluster.BufferHints` | crates/qv-node/src/router.rs:350-374 | appends one hint per unreachable replica, in order, to this node's log only |
| `Coordinator.Cluster.ReplicateWrite` | crates/qv-node/src/router.rs:309-386 | from the outcomes alone: success exactly when one, a strict majority or all replicas acknowledged, otherwise the error with the least sufficient number and the number reached; stores, hints and acknowledgement likewise; success or not, every replica is covered or hinted |
| `Coordinator.PickWinner` | crates/qv-node/src/router.rs:439-443 | a newest version among the answers, none only if no replica has one |
| `Coordinator.VisibleAnswers` | crates/qv-node/src/router.rs:439-453 | what the winner shows is what the answers say: nothing exactly when no answer has a version or the newest is a tombstone, else the vector of a newest answer |
| `Coordinator.StaleReplicas` | crates/qv-node/src/router.rs:509-518 | exactly the answering replicas that are older or empty |
| `Coordinator.RepairCoversAll` | crates/qv-node/src/router.rs:499-587 | pushing only to those is the same as pushing the winner to all that answered |
| `Coordinator.Cluster.ReadReplicas` | crates/qv-node/src/router.rs:421-429 | collects one answer from each replica that answers |
| `Coordinator.Cluster.WinnerSeesAcks` | crates/qv-node/src/router.rs:392-456 | with enough answers the winner covers every write acknowledged earlier at an overlapping level |
| `Coordinator.Cluster.CoordinateGet` | crates/qv-node/src/router.rs:392-456 | succeeds exactly when one, a strict majority or all replicas answer, else reports the least sufficient number and the number reached; returns what the answers say, tombstones as absent; covers every earlier acknowledged overlapping write; answering replicas reached by repair end with the winner or newer, nothing else changes |
| `Coordinator.ReplayLanded` | crates/qv-node/src/router.rs:798-842 | rewriting the log after all answered pushes landed is exactly the atomic replay step |
| `Coordinator.KeptPositions` | crates/qv-node/src/router.rs:808-838 | what a pass keeps is the subsequence of the log at exactly the positions with an unknown target or an unanswered push |
| `Coordinator.TriedHoldsNewest` | crates/qv-node/src/router.rs:808-838 | and every store is then the newest-write map of what it held and the hinted writes that took effect there |
| `Coordinator.Cluster.ReplayHints` | crates/qv-node/src/router.rs:798-842 | the new log is that subsequence and the result counts the other positions, so it ends empty when every target is known and every push answered; each store holds the newest of what it had and what took effect |
| `Coordinator.TransferIsJoin` | crates/qv-node/src/router.rs:892-940 | applying all records of the source yields the join |
| `Coordinator.Cluster.PullShard` | crates/qv-node/src/router.rs:892-940 | this node ends at the join of both replicas, the count is the number of ids on which the source was ahead; an unreachable source changes nothing |
| `Interleaving.StepIsLater` | crates/qv-node/src/router.rs:309-587 | every protocol step moves all stores forward and loses no acknowledgement |
| `Interleaving.WriteAmid` | crates/qv-node/src/router.rs:309-386 | with any steps of others in between: the same verdict from the outcomes alone, and on return every replica is covered or hinted |
| `Interleaving.GetAmid` | crates/qv-node/src/router.rs:392-456 | with any steps of others in between: the same verdict, a value that is what the answers say, each answer current at some moment of the read, covering every write acknowledged at an overlapping level before it began |
| `Interleaving.PullAmid` | crates/qv-node/src/router.rs:892-940 | with live traffic in between, the target ends at or beyond the join of what it held and what was streamed |
| `HintBridge.ImageOfKept` | crates/qv-node/src/router.rs:798-842 | replaying a file of many shards and looking at one shard is replaying that shard's log |
| `HintBridge.BufferDurably` | crates/qv-node/src/node_state.rs:55-59 | one append to the file is one protocol step, and the file still holds the protocol's log |
| `HintBridge.ReplayDurably` | crates/qv-node/src/node_state.rs:72-90 | a pass through the file leaves it holding the protocol's log |
| `HnswGraph.ReachableIffPath` | crates/qv-hnsw/src/hnsw.rs:265-315 | reachability as least closed set agrees with existence of a path |
| `HnswGraph.GreedySearchLayer` | crates/qv-hnsw/src/hnsw.rs:239-259 | terminates at a reachable local minimum no farther than the entry |
| `HnswGraph.VisitNeighbor` | crates/qv-hnsw/src/hnsw.rs:298-309 | keeping or rejecting one new neighbour keeps the results the nearest visited nodes |
| `HnswGraph.ExpandCandidate` | crates/qv-hnsw/src/hnsw.rs:295-311 | expanding a candidate visits all its neighbours and keeps the search invariant |
| `HnswGraph.SearchLayer` | crates/qv-hnsw/src/hnsw.rs:265-315 | terminates with min(ef, visited) distinct reachable nodes with their distances, no visited node left out is closer, and every neighbour of every result was visited despite the early stop |
| `HnswLinks.SelectNeighbors` | crates/qv-hnsw/src/hnsw.rs:327-355 | at most m candidates nearest first, none closer to an earlier kept one than to the base, each rejected one blocked by a strictly closer kept one or left when m were kept |
| `HnswLinks.SelectionKeepsNearest` | crates/qv-hnsw/src/hnsw.rs:327-355 | a nonempty candidate list keeps a nearest candidate first |
| `HnswLinks.PrunedList` | crates/qv-hnsw/src/hnsw.rs:436-448 | pruning returns at most m distinct members of the old list |
| `HnswWiring.LinkBack` | crates/qv-hnsw/src/hnsw.rs:418-424 | a back-edge, pruned if the list overflows, keeps all graph invariants and touches one list |
| `HnswWiring.WireLayer` | crates/qv-hnsw/src/hnsw.rs:414-424 | the new node's list is the selection, each selected node got its back-edge, nothing else changed, all invariants hold |
| `HnswInsert.ReachStaysOnLayer` | crates/qv-hnsw/src/hnsw.rs:358-432 | what is reachable on a layer exists on it, and a node without in-edges is never reached |
| `HnswInsert.Descend` | crates/qv-hnsw/src/hnsw.rs:384-394 | greedily layer by layer, none skipped, each stop reachable from the one before and a local minimum of its layer; ends on the target layer, never at the node being inserted |
| `HnswInsert.ConnectLayer` | crates/qv-hnsw/src/hnsw.rs:402-424 | one layer: search, select, wire, and hand down the nearest node found |
| `HnswInsert.LinkNode` | crates/qv-hnsw/src/hnsw.rs:358-432 | starts where greedy descent ended (a local minimum of the layer above, or the entry point), then one step per layer from the lower of the two top layers to zero, chained; no step starts at or visits the new node |
| `HnswSearch.BroadSearchFindsAll` | crates/qv-hnsw/src/hnsw.rs:265-315 | a search at least as broad as the reachable set returns all of it |
| `HnswSearch.TakeLive` | crates/qv-hnsw/src/hnsw.rs:646-657 | the final loop returns the first k live entries |
| `HnswSearch.RankedIsNearest` | crates/qv-hnsw/src/hnsw.rs:643-657 | sorting, dropping tombstones and truncating gives exactly k nearest of the live found nodes |
| `HnswSearch.BroadSearchIsTopK` | crates/qv-hnsw/src/hnsw.rs:610-658 | sorted, filtered and truncated, a broad search gives exactly k nearest live reachable points |
| `HnswIndexes.HnswIndex.constructor` | crates/qv-hnsw/src/hnsw.rs:197-215 | an empty valid index |
| `HnswIndexes.GrowGraph` | crates/qv-hnsw/src/hnsw.rs:358-432 | all graph and entry-point invariants hold after a new node, and the change is exactly the chained layer steps from where descent ended |
| `HnswIndexes.HnswIndex.InsertNew` | crates/qv-hnsw/src/hnsw.rs:358-432 | keeps the full invariant; the generator advances once and gives the level, the graph grows by the chained layer steps, and the node becomes the entry point exactly when it is the first or rises above the old one |
| `HnswIndexes.HnswIndex.Insert` | crates/qv-hnsw/src/hnsw.rs:563-587 | a full replace on the live map; on the whole index, a new id is exactly such an insertion, a known one overwrites and revives without touching an edge, and a wrong dimension changes nothing |
| `HnswIndexes.HnswIndex.Replace` | crates/qv-hnsw/src/hnsw.rs:571-583 | overwrites one vector and lifts its tombstone; edges, entry point, ids and generator are unchanged |
| `HnswIndexes.HnswIndex.Delete` | crates/qv-hnsw/src/hnsw.rs:589-598 | removes the id from the live map, says whether it was there, and on the whole index sets one tombstone and the count |
| `HnswIndexes.HnswIndex.GetVector` | crates/qv-hnsw/src/hnsw.rs:600-608 | looks up the live map |
| `HnswIndexes.HnswIndex.Search` | crates/qv-hnsw/src/hnsw.rs:610-658 | at every breadth, exactly k nearest of the live nodes that the layer-0 search of breadth max(ef, k) returned from where greedy descent ends, with distinct live ids, ascending, with their own distances; exactly k nearest live reachable points when the breadth covers the reachable set |
| `HnswIndexes.LeftOutIsNoCloser` | crates/qv-hnsw/src/hnsw.rs:641-657 | at every breadth, a live visited node left out of the answer is no closer than any hit, and an answer short of k means the breadth was used up |
| `HnswIndexes.GraphMatchesOracle` | crates/qv-hnsw/src/hnsw.rs:610-658 | with every live point reachable and a symmetric distance, such an answer has the brute-force answer's length and distances |
| `HnswIndexes.HnswIndex.ValidateInvariants` | crates/qv-hnsw/src/hnsw.rs:492-547 | the run-time check passes exactly when its clauses hold, and always on a valid index |
| `HnswIndexes.LayerBounds` | crates/qv-hnsw/src/hnsw.rs:218-224 | no list on layer 0 is longer than M0 and none above it longer than M |
| `HnswIndexes.RunHistory` | crates/qv-hnsw/src/hnsw.rs:563-598 | in every sequence of inserts, replaces and deletes each operation changes the whole index exactly as stated above; the result is valid and within its degree bounds, passes its own check and holds exactly the history's live map |
| `TopK.TopKUnique` | crates/qv-hnsw/src/index.rs:164-195 | the k smallest by (score, id), in order, are unique |
| `TopK.ScoresUnique` | crates/qv-hnsw/src/hnsw.rs:643-657 | scores of a k-nearest list do not depend on tie breaking |
| `TopK.SortTruncate` | crates/qv-hnsw/src/index.rs:187-194 | sorting by (score, id) and truncating selects the k smallest |
| `TopK.MergeIsTopK` | crates/qv-node/src/router.rs:659-665 | merging per-part top lists of disjoint parts gives the top list of the union |
| `TopK.MergeIsNearest` | crates/qv-node/src/router.rs:659-665 | the same up to ties |
| `BruteForce.BruteForceIndex.constructor` | crates/qv-hnsw/src/index.rs:86-97 | an empty table |
| `BruteForce.RowsIndependent` | crates/qv-hnsw/src/index.rs:100-102 | writing one slot's row leaves every other row alone |
| `BruteForce.ReuseOk` | crates/qv-hnsw/src/index.rs:132-143 | taking a free slot keeps the partition into occupied and free slots, without duplicates, and adds one entry to the map |
| `BruteForce.FreeOk` | crates/qv-hnsw/src/index.rs:147-156 | freeing a slot keeps the partition and the live count |
| `BruteForce.BruteForceIndex.Insert` | crates/qv-hnsw/src/index.rs:118-145 | a full replace on the map id to vector, or no change for a wrong dimension |
| `BruteForce.BruteForceIndex.Delete` | crates/qv-hnsw/src/index.rs:147-156 | removes the id from the map and says whether it was there |
| `BruteForce.BruteForceIndex.GetVector` | crates/qv-hnsw/src/index.rs:158-162 | looks up the map |
| `BruteForce.BruteForceIndex.Search` | crates/qv-hnsw/src/index.rs:164-195 | exactly the k smallest by (distance, id) |
| `Placement.PositionsSeparate` | crates/qv-cluster/src/placement.rs:58-76 | a ring position depends on node and vnode number and on nothing less: some hash tells any two pairs apart |
| `Placement.HomesSeparate` | crates/qv-cluster/src/placement.rs:89-97 | a shard's home depends on collection and shard number and on nothing less |
| `Placement.ShardIsResidue` | crates/qv-cluster/src/placement.rs:36-39 | a point's shard is congruent to the hash of its id |
| `Placement.ShardsSeparate` | crates/qv-cluster/src/placement.rs:36-39 | with two or more shards some hash tells any two ids apart |
| `Placement.NewRing` | crates/qv-cluster/src/placement.rs:58-76 | every position of every node once, sorted by position then node |
| `Placement.WalkAscends` | crates/qv-cluster/src/placement.rs:104-131 | the cyclic walk from the home position visits entries by clockwise distance, then node, through the wraparound |
| `Placement.WalkedSelects` | crates/qv-cluster/src/placement.rs:104-131 | first-occurrence dedup anywhere along the walk selects the nearest distinct nodes |
| `Placement.Collect` | crates/qv-cluster/src/placement.rs:116-130 | the loop with its early exit returns exactly the wanted number of nearest nodes |
| `Placement.ReplicasForShard` | crates/qv-cluster/src/placement.rs:104-131 | exactly the min(n, nodes) distinct nodes with the smallest (clockwise distance to nearest vnode, node id), in order; all nodes for n = 0; none for an empty ring |
| `Placement.JoinMovesMinimally` | crates/qv-cluster/src/placement.rs:104-131 | when a node joins, a replica list stays the same or gains the newcomer and loses at most its last member |
| `Placement.JoinRetainsHome` | crates/qv-cluster/src/placement.rs:104-131 | with two or more replicas the previous first replica always remains |
| `ScatterGather.ShardsPartition` | crates/qv-cluster/src/placement.rs:36-39 | hashing partitions the points over the shards |
| `ScatterGather.MergeIsExact` | crates/qv-node/src/router.rs:659-665 | exact shard answers merge to the exact global top k with no id twice |
| `ScatterGather.MergeIsNearestOverall` | crates/qv-node/src/router.rs:659-665 | shard answers with ties in any order merge to k nearest points of the collection, no id twice |
| `GlobalSearch.ScatterGatherMatchesOracle` | crates/qv-node/src/router.rs:593-666 | broad HNSW searches on all shards, merged, return as many hits as one brute-force scan of the whole collection, at the same distances |
| `ScatterGather.ActivePreferred` | crates/qv-node/src/router.rs:619-650 | an active replica that answers is preferred to any syncing one |
| `ScatterGather.OrderedPrefers` | crates/qv-node/src/router.rs:619-650 | the answer used is that of the first active replica that answers or, if none does, of the first in the whole replica set that answers |
| `ScatterGather.AskShard` | crates/qv-node/src/router.rs:636-650 | the first replica in order that answers, or none answers |
| `ScatterGather.CoordinateSearch` | crates/qv-node/src/router.rs:593-666 | fails exactly for a wrong dimension or a shard nobody answers for, else merges one answer per shard, each from the preferred replica |
| `Metadata.ReplicaStateIsLastWord` | crates/qv-cluster/src/meta.rs:163-225 | a replica's state is what the last request touching it says: the set state, or Active after a drop or deregistration |
| `Metadata.UntouchedIsActive` | crates/qv-cluster/src/meta.rs:220-225 | a replica never touched is Active |
| `Metadata.NodeIsLastWord` | crates/qv-cluster/src/meta.rs:163-207 | a node is registered exactly when the last request naming it registered it, at that address |
| `Metadata.UntouchedNodeAbsent` | crates/qv-cluster/src/meta.rs:163-207 | a node no request named is not registered |
| `Metadata.SchemaIsFirstCreate` | crates/qv-cluster/src/meta.rs:163-207 | a schema is the first creation since the last drop; later creations change nothing |
| `Metadata.AbsentUntilCreated` | crates/qv-cluster/src/meta.rs:163-207 | a collection whose every mention was followed by a drop does not exist |
| `Metadata.MetaTable.ApplyRequest` | crates/qv-cluster/src/meta.rs:163-207 | the three maps change in place exactly as specified, with the right note |
| `MetaStore.BatchIsFold` | crates/qv-cluster/src/raft/store.rs:415-440 | any batching of the log equals the single fold |
| `MetaStore.StepKeepsFaithful` | crates/qv-cluster/src/raft/store.rs:324-475 | apply, build, install and restart keep memory, disk and snapshot of every node a fold of a log prefix |
| `MetaStore.RunKeepsFaithful` | crates/qv-cluster/src/raft/store.rs:324-475 | so they are at every point of every run |
| `MetaStore.ImageMembership` | crates/qv-cluster/src/raft/store.rs:415-440 | the membership is the last membership entry applied, at its own index, or none if there was none |
| `MetaStore.RunsAgree` | crates/qv-cluster/src/raft/store.rs:324-475 | each node's metadata is the fold of the requests it applied and its membership the last membership entry applied, and nodes that applied equally much agree on both |
| `MetaStore.StateMachineStore.constructor` | crates/qv-cluster/src/raft/store.rs:324-359 | opening restores the persisted image and offers it as a snapshot exactly when anything was applied |
| `MetaStore.RestartOffers` | crates/qv-cluster/src/raft/store.rs:324-359 | a restarted node offers a snapshot exactly when it has applied something, and that snapshot is the fold of what it applied |
| `MetaStore.StateMachineStore.ApplyBatch` | crates/qv-cluster/src/raft/store.rs:415-440 | memory and disk become the fold of the log up to the end of the batch, and each response is computed on the state its predecessors left |
| `MetaStore.StateMachineStore.BuildSnapshot` | crates/qv-cluster/src/raft/store.rs:368-402 | the snapshot is the fold of exactly the log prefix the node has applied, and the node stays a fold of the log |
| `MetaStore.StateMachineStore.InstallSnapshot` | crates/qv-cluster/src/raft/store.rs:452-475 | whatever the node held before, its memory, disk, snapshot and any restart are then folds of the log the image came from |
| `MetaStore.CatchUp` | crates/qv-cluster/src/raft/store.rs:324-475 | snapshot on one node, install on another, restart: the restarted node holds the fold up to the sender's position |

## Left out

- openraft itself, the Raft log store, gRPC transport, services, client, configuration and command line: foreign code or plumbing.
- SIMD and `f32` arithmetic, NaN, and recall figures: distances are integers here, and nothing is claimed of edge symmetry or of reachability of the whole graph, which one-sided pruning does not give.
- The floating-point logarithm behind a node's level, and the mixing steps of SplitMix64 after its additive step: one abstract function of the generator state.
- Binary heap layout: the heaps are sets with a least and a greatest element, and the order in which a heap is drained is unspecified.
- The library sorts are a function proved sorted and a permutation, not an in-place algorithm.
- Node indices as `u32`: indices are unbounded, so a graph of 2^32 nodes is not modelled.
- File-system errors, temporary files and rename: a snapshot or state file is replaced atomically, and JSON or bincode round trips are the identity.
- ShardRuns.RunMatchesSurvivingLog: runs submit only records whose frame fits the u32 length and take no blind snapshot, because `Wal.OversizedEndsLog` and `ShardRuns.BlindSnapshotLosesFlushed` show that the claim fails otherwise.
- Crashes inside a hint-log append or rewrite: `HintLog::open` does not truncate a torn tail, so appending after one is not modelled; errors when the hint store itself fails end an operation as `Abandon`.
- Convergence.DrainedHintsConverge: membership is fixed, replay passes are atomic and (id, hlc) determines the write, because stored versions carry no node-id tiebreak; `HintRace` shows what the code does without the second condition.
- ShardIndex.RebuildAt: the index is identified with its operation history, because the order in which a binary heap is drained is not modelled; that equal histories give equal graphs rests on the code being deterministic.
- Records whose vector or payload alone has 2^32 elements: their length fields, not only the frame length, would be truncated.
- Coordinator.Cluster.ReplicateWrite: states the exact outcome of an undisturbed execution; `Interleaving.WriteAmid` states what holds with anything in between.
- Coordinator.Cluster.CoordinateGet: likewise; `Interleaving.GetAmid` covers interleaving, without read repair, whose pushes are deliveries of the protocol.
- Coordinator.Cluster.PullShard: likewise; `Interleaving.PullAmid` and `Lww.PullIsJoin` cover live traffic during the transfer.
- Coordinator.Cluster.ReplayHints: one pass during which nothing else is buffered at this node, because `HintRace.SplitReplaySafeIff` shows that otherwise hints can be dropped.
- Node clocks are not part of the replication state; that `now` exceeds ingested stamps is proved in `Clocks`, and clock monotonicity across restarts is not claimed.
- Payload contents on reads and streams (the code drops them), batched ids in one request, and the mapping from collections to replicas inside the coordinator methods.
- The reconcile loop and its "never drop before re-homed" claim: absent state means Active, so the all-active test can pass before a newcomer marks itself Syncing; transfer as join and retained replicas under a join are proved instead.
- `MetaState::shard_map`, `read_hints_for`, degree statistics and other accessors: easy members.
