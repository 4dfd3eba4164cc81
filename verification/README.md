# hypercache in Dafny

A model of the cache library hypercache and proofs about it: the cluster protocols of the distributed
backend, the eviction algorithms, the local cache that drives them, and the worker pool.

`dafny verify dfyconfig.toml` checks everything. Each part has a policy on values, where the laws are
proved over all inputs, all runs or all interleavings, and, where the source updates objects in place,
a class whose methods are proved to compute that policy. Links, heap slots, in-place compaction and
node aliasing are real heap objects; loops are loops.

| part | files |
|---|---|
| items, version order, sequences | `Items.dfy`, `Seqs.dfy` |
| consistent hashing | `Ring.dfy` |
| anti-entropy | `Merkle.dfy` |
| quorum reads and repair, cluster writes | `Quorum.dfy`, `Reads.dfy`, `Writes.dfy`, `ReadRepair.dfy` |
| rebalancing, hinted handoff | `Rebalance.dfy`, `Hints.dfy` |
| membership and gossip | `GossipPolicy.dfy`, `Gossip.dfy` |
| eviction | `Traces.dfy`, `LinkedList.dfy`, `ArcPolicy.dfy`, `ArcOrder.dfy`, `Arc.dfy`, `LfuPolicy.dfy`, `Lfu.dfy`, `Recency.dfy`, `Lru.dfy`, `Cawolfu.dfy`, `ClockPolicy.dfy`, `Clock.dfy` |
| sharded eviction, local cache | `Bits.dfy`, `Algorithm.dfy`, `Sharded.dfy`, `CachePolicy.dfy`, `HyperCache.dfy` |
| worker pool | `Pool.dfy` |

## Where the code and its documentation part

Each of these is proved, with a concrete input and, where the code meets the property sometimes, the
exact condition.

- `repairRemoteReplica` is documented to compare versions; it does not, so a read below ALL can push an
  owner backwards (`Reads.NeverRegressesIff`, `Quorum.MajorityReadCanRegress`).
- A rebalancing tick sends its copy without comparing versions, so it can undo a newer write at the key's new owner
  (`Rebalance.TickPushesBackIff`).
- A ONE read answers from the reader's own copy, owner or not, so it can miss even an ALL write
  (`Writes.OneReadAfterWriteIff`).
- A forwarded Set keeps the version it arrived with, so an acknowledged write can stay invisible
  (`Writes.ForwardedVisibleIff`).
- Anti-entropy misses a live key beside which the peer keeps an older tombstone
  (`Merkle.SyncCompleteIff`), and the leaf encoding is ambiguous (`Merkle.LeafBytesAmbiguous`).
- The hint counters drift when the per-node and byte caps are both on (`Hints.EnqueueExactIff`).
- Refutation is documented to reach the claimed incarnation plus one at once; it takes one step per
  delivery (`GossipPolicy.RefutedAfterExactly`). `Mark` does not rebuild the ring
  (`GossipPolicy.MarkKeepsRingIff`), and two members that hold a third at equal incarnations but in different
  states never settle it between them (`GossipPolicy.ThirdPartyAgreesIff`).
- ARC's residents have no bound, whatever its capacity (`ArcPolicy.ResidentsUnbounded`).
- The sharded wrapper is documented to fail only when all shards are empty; with clocks it fails when no
  shard has an idle slot (`Sharding.ClocksEvictFailsIff`), and its capacities sum to the total only when they divide
  it (`Sharding.CapacitySplit`).
- With a clock the cache can exceed its capacity (`CachePolicy.ClockBoundedIff`). Rewriting one key uses up
  the byte limit (`CachePolicy.RewritesFillTheCache`); a rejected item is wiped before its size is given
  back, so the counter keeps it (`CachePolicy.CounterExact`).
- `Shutdown` is documented to wait until all enqueued jobs have finished; it waits for good exactly when more jobs
  failed than the error channel holds and readers took (`Pool.ShutdownBlockedIff`), before or after it closes the jobs
  channel.
- Coalescing repairs is not the same as sending them all, because receivers overwrite
  (`RepairPolicy.CoalescingPreservesIff`).

## Model

| member | source | states |
|---|---|---|
| `Items.ComparisonsAgree` | pkg/backend/dist_read_repair.go:263-276 | the repair queue replaces a queued item exactly when a read's chooseNewer would prefer the newcomer: the two comparisons are one order |
| `Items.AtLeastTransitive` | pkg/backend/dist_memory.go:3547-3582 | "at least as new" is transitive, ties by origin included |
| `Items.AtLeastTotal` | pkg/backend/dist_memory.go:3547-3582 | any two items compare, and neither is newer exactly when version and origin are equal |
| `Items.ChooseNewerBound` | pkg/backend/dist_memory.go:3547-3582 | the choice is one of the arguments, at or above both, and nil only when both are |
| `Ring.AllPointsMembers` | internal/cluster/ring.go:64-96 | a vnode is built exactly when its node is listed and its hash is that of one of the node's labels |
| `Ring.VNodeBytesIff` | internal/cluster/ring.go:66-80 | a vnode's bytes are its node's ID and the low byte of its index; two vnodes have the same bytes if and only if node and index modulo 256 agree |
| `Ring.SortVNodes` | internal/cluster/ring.go:64-96 | a permutation of the vnodes, ordered by hash |
| `Ring.SearchFirst` | internal/cluster/ring.go:100-129 | the binary search finds the first vnode at or past the target, for every target |
| `Ring.WalkDistinct` | internal/cluster/ring.go:100-129 | the wrapping walk collects the first appearances of nodes clockwise, stopping at the replication factor |
| `Ring.HashRing.constructor` | internal/cluster/ring.go:29-60 | non-positive options leave the defaults |
| `Ring.HashRing.Build` | internal/cluster/ring.go:64-96 | the new ring is a hash-ordered permutation of exactly the listed nodes' vnodes |
| `Ring.HashRing.Lookup` | internal/cluster/ring.go:100-129 | the result is the owner list of the key's hash |
| `Ring.OwnersAreNearest` | internal/cluster/ring.go:100-129 | the owner list has exactly min(replication, ring nodes) distinct nodes, ordered by clockwise distance to their nearest vnode, and no node left out is nearer |
| `Ring.OwnersUnique` | internal/cluster/ring.go:100-129 | without cross-node hash ties any list with those properties is the owner list |
| `Ring.SameVNodesSameOwners` | internal/cluster/ring.go:64-129 | rings holding the same vnodes, however ordered or repeated, give every key the same owners |
| `Ring.BuildOrderIrrelevant` | internal/cluster/ring.go:64-129 | ownership does not depend on the order in which Build received the nodes |
| `Ring.OwnersDeterminedIff` | internal/cluster/ring.go:64-129 | the tie condition is exact: an unstable sort determines ownership if and only if no two nodes share a hash |
| `Ring.MinimalDisruption` | internal/cluster/ring.go:64-129 | when a node joins, every key's new owner list without the newcomer is a prefix of the old one, and at most one old owner is dropped |
| `Ring.BuildDisruption` | internal/cluster/ring.go:64-129 | the same for the rings Build makes of a node list and of a list with one member more, each in any order |
| `Merkle.AdoptStep` | pkg/backend/dist_memory.go:1864-1909 | one pull catches its key up, touches no other key, and no key's max(item version, tombstone version) falls |
| `Merkle.NoResurrection` | pkg/backend/dist_memory.go:1864-1909 | after any pulls from any peers, changing as they may, a key deleted at version t, live here as well or not, is still deleted, at t or later, and live at most as it was; or its deletion is lifted and it is live above t, with an item that was here or that a pulled peer held |
| `Merkle.AdoptAllSteps` | pkg/backend/dist_memory.go:1782-1801 | over any sequence of pulls no key's level falls, every pulled key is caught up, the rest is untouched |
| `Merkle.PulledKeyEnds` | pkg/backend/dist_memory.go:1864-1909 | the item or tombstone a pulled key ends with, however often it is pulled: the peer's item unless deleted or live here at that version or later; a key the peer lacks is deleted one version up |
| `Merkle.AdoptAllDeletes` | pkg/backend/dist_memory.go:1864-1909 | a pulled live key the peer lacks becomes a tombstone one version higher and stays one |
| `Merkle.ChunkSlice` | pkg/backend/dist_memory.go:497-534 | the source's slice arithmetic cuts exactly the listed chunks |
| `Merkle.VersionBytesInjective` | pkg/backend/dist_memory.go:2467-2473 | the eight-byte big-endian encoding of 64-bit versions is injective |
| `Merkle.LeafBytesDetermineIff` | pkg/backend/dist_memory.go:497-534 | two chunks that hash the same bytes are equal exactly when their key lengths agree |
| `Merkle.LeafBytesAmbiguous` | pkg/backend/dist_memory.go:497-534 | different chunks with the same hashed bytes exist, so collision freedom is a separate assumption |
| `Merkle.SortedKeysAgree` | pkg/backend/dist_memory.go:1733-1741 | two sorts of the same entries agree on the key at every position, whatever the order of equal keys |
| `Merkle.SyncComplete` | pkg/backend/dist_memory.go:3226-3274 | anti-entropy completeness: after one sync every key live on the peer is held, live or tombstoned, at its version or above, whatever the chunk sizes and leaf counts |
| `Merkle.SyncCompleteIff` | pkg/backend/dist_memory.go:3226-3274 | completeness for a key against every puller holds if and only if the peer has no tombstone older than its live copy |
| `Merkle.LocalOnlyKeySurvivesIff` | pkg/backend/dist_memory.go:1782-1801 | a live key only this node holds survives a sync exactly when its chunk does not differ |
| `Merkle.SortEntries` | pkg/backend/dist_memory.go:1733-1741 | a permutation of the entries, ordered by key |
| `Merkle.DiffLeafRanges` | pkg/backend/dist_memory.go:543-566 | exactly the differing leaf positions, all of this tree's when the leaf counts differ |
| `Merkle.BuildLeaves` | pkg/backend/dist_memory.go:497-534 | one digest per chunk, in order |
| `Merkle.Store.MerkleEntries` | pkg/backend/dist_memory.go:1912-1930 | one entry per live item and per tombstone, as a bag |
| `Merkle.Store.SortedMerkleEntries` | pkg/backend/dist_memory.go:1733-1741 | a key-ordered listing of those entries |
| `Merkle.Store.BuildMerkleTree` | pkg/backend/dist_memory.go:497-534 | the tree of a listing of the node's entries, chunk size defaulted when not positive |
| `Merkle.Store.FetchAndAdopt` | pkg/backend/dist_memory.go:1864-1909 | one pull from a peer, every branch; an unreachable peer changes nothing |
| `Merkle.Store.ApplyMerkleDiffs` | pkg/backend/dist_memory.go:1782-1801 | pulls exactly the keys of the differing chunks |
| `Merkle.Store.SyncWith` | pkg/backend/dist_memory.go:3226-3274 | a whole cycle is such a sync, so the completeness theorem applies; clean exactly when nothing was pulled |
| `Quorum.AbsorbAllSummary` | pkg/backend/dist_memory.go:2755-2785 | over any answers the choice is the newest and the acknowledgements count distinct owners |
| `Quorum.StaleOvertake` | pkg/backend/dist_memory.go:2755-2785 | the owners recorded for targeted repair are exactly those whose answer beat every one before it |
| `Quorum.QuorumIntersection` | pkg/backend/dist_memory.go:2736-2785 | when W owners hold an item at or above x and R + W exceeds the owner count, every successful read returns an item at or above x, in every arrival order |
| `Quorum.QuorumIntersectionIff` | pkg/backend/dist_memory.go:2651-2663 | R + W > n is exact: otherwise some snapshot and arrival order miss the write |
| `Quorum.CollectQuorum` | pkg/backend/dist_memory.go:2755-2785 | the sequential loop gathers exactly the answers up to the first satisfied prefix |
| `Quorum.RepairReplicas` | pkg/backend/dist_memory.go:3585-3644 | repair of every owner, local by comparison, remote without one |
| `Quorum.RepairStaleOwners` | pkg/backend/dist_memory.go:2788-2810 | repair of the owners noted stale during the read |
| `Quorum.GetWithConsistency` | pkg/backend/dist_memory.go:2736-2752 | a sequential QUORUM or ALL read: result, error exactly on too few answers, and the repaired stores |
| `Quorum.GetWithConsistencyParallel` | pkg/backend/dist_memory.go:2884-2949 | the same for any arrival order of the answers |
| `Quorum.RepairedEffect` | pkg/backend/dist_memory.go:3585-3644 | after a successful read each owner that could be told holds the choice, the reader keeps anything at least as new, and no other node and no other key changes |
| `Quorum.AllReadChoosesMaximum` | pkg/backend/dist_memory.go:2736-2785 | an ALL read returns the newest item any owner held |
| `Quorum.AllReadConverges` | pkg/backend/dist_memory.go:2736-2845 | a successful ALL read leaves every owner at the maximum (version, origin) any owner held |
| `Reads.NeverRegressesIff` | pkg/backend/dist_memory.go:3623-3644 | with every owner reachable, reads needing a given number of answers never push an owner back to an older item if and only if they ask all owners |
| `Reads.GatheredRead` | pkg/backend/dist_memory.go:2736-2785 | a gathered read succeeds if and only if enough owners can be asked and hold the key; it stops at the answer that makes them enough and returns the newest, the first of equals |
| `Quorum.MajorityReadCanRegress` | pkg/backend/dist_memory.go:3623-3644 | three owners and a QUORUM read that does so |
| `Reads.GetOne` | pkg/backend/dist_memory.go:2666-2727 | a ONE read after a local miss returns the copy of the first owner, in ring order, that can be reached and holds the key, and None if and only if there is none; only a reader that owns the key stores it, and nothing else changes |
| `Reads.Get` | pkg/backend/dist_memory.go:3809-3831 | a Get at any level, sequential or parallel: its result and the stores it leaves; at level ONE the reader's own copy, else the first owner's |
| `Reads.OneSeesIff` | pkg/backend/dist_memory.go:3809-3823 | over every network a ONE read is at or above an item if and only if the reader's own copy is, or it has none and every owner's copy is |
| `Reads.SeesIff` | pkg/backend/dist_memory.go:2736-2785 | over every network and arrival order all reads needing R answers are at or above an item if and only if fewer than R owners are below it |
| `Reads.ReadsIff` | pkg/backend/dist_memory.go:2736-2785 | all such reads return an item's version and origin if and only if too few copies exist for any to succeed, or no owner is above it and fewer than R are below |
| `Reads.ReadsKeepHolders` | pkg/backend/dist_memory.go:2736-2845 | over any run of Gets at any level without writes, the owners at or above an item only grow while the gathered reads overlap them |
| `Reads.ReadsKeepSole` | pkg/backend/dist_memory.go:2736-2845 | over any run of Gets an item stays the only one of its version and origin among the owners |
| `Reads.RunSees` | pkg/backend/dist_memory.go:2736-2845 | so every gathered read of such a run returns an item at or above it |
| `Writes.ReplicateTo` | pkg/backend/dist_memory.go:2848-2881 | the replication loop: stores, acknowledgements and hinted nodes |
| `Writes.ReplicateEffect` | pkg/backend/dist_memory.go:2848-2881 | acknowledgements count the reachable targets, hints are the unreachable ones, and exactly the accepting targets hold the item |
| `Writes.Set` | pkg/backend/dist_memory.go:3835-3895 | each outcome of a cluster Set, exactly when it occurs, draining and a missing transport included; what every node then holds of every key, the caller's value under the new version and origin; acknowledgements and hints |
| `Writes.WriteHolders` | pkg/backend/dist_memory.go:3835-3895 | after an acting primary's write at least one owner more than were acknowledged holds the item |
| `Writes.WriteThenRead` | pkg/backend/dist_memory.go:3835-3895 | after a Set stored with W acknowledgements every QUORUM or ALL read with R + W > n, by any node over any network, at once or after any run of such reads and ONE reads without further writes, returns it or something newer; one that returns its version and origin returns its value, unless an owner had used them before |
| `Writes.OneReadAfterWriteIff` | pkg/backend/dist_memory.go:3809-3823 | a ONE read right after a Set is at or above it over every network if and only if the reader was reached, or the copy it kept is not below it, or it has none and no unreached owner's copy is below |
| `Writes.OneReadMissesAllWrite` | pkg/backend/dist_memory.go:3809-3823 | an ALL write with every acknowledgement is missed by a ONE read at a node that kept an old copy |
| `Writes.ForwardedKeepsVersion` | pkg/backend/dist_memory.go:4481-4542 | a forwarded write is stored under the version it arrived with |
| `Writes.ForwardedVisibleIff` | pkg/backend/dist_memory.go:3661-3689 | every successful read needing R answers returns a forwarded write's version and origin if and only if no read can succeed, or no owner it missed holds a newer item and fewer than R of them hold an older one |
| `Writes.ForwardedWriteCanBeInvisible` | pkg/backend/dist_memory.go:3661-3689 | three owners where an acknowledged forwarded write loses to an older write in every QUORUM read order |
| `Rebalance.MigrateAt` | pkg/backend/dist_memory.go:2353-2423 | migrating one item leaves it at the reachable new primary or in a hint, drops it here exactly when unowned, and touches no other key on any node |
| `Rebalance.MigrateAllAt` | pkg/backend/dist_memory.go:2311-2350 | the same for a whole candidate list, in any order |
| `Rebalance.DiffAllAt` | pkg/backend/dist_memory.go:2163-2280 | the replica diff brings every led key's baseline up to date, keeps this node's items, and touches no key it does not lead |
| `Rebalance.TickSettles` | pkg/backend/dist_memory.go:2050-2139 | after one tick the node holds exactly its owned items and has nothing left to migrate or to send |
| `Rebalance.ReleasedIsHandedOver` | pkg/backend/dist_memory.go:2353-2423 | an unowned item leaves the node and is at its reachable new primary or, when hints are kept, in a hint for it; with neither, no other node's copy and no hint changes |
| `Rebalance.SettledTickIsIdle` | pkg/backend/dist_memory.go:2050-2073 | a settled node's next tick changes nothing |
| `Rebalance.SecondTickForwardsNothing` | pkg/backend/dist_memory.go:2050-2073 | two ticks in any iteration orders end where the first one did; the second forwards nothing |
| `Rebalance.OnlyCopySurvivesIff` | pkg/backend/dist_memory.go:2353-2423 | the only copy of an unowned key survives a tick if and only if its new primary is reachable or hints are kept |
| `Rebalance.TickDelivers` | pkg/backend/dist_memory.go:2050-2423 | by owner list and records: a tick leaves its own copy of a key at exactly the reachable owners of a key it lost or was primary of, when the new primary is reachable, and at the reachable replicas added to a key it leads; they put primary and owners on record if they had none; every other copy and record is as it was |
| `Rebalance.PrimaryShiftMoves` | pkg/backend/dist_memory.go:2103-2139 | a held key with another primary is handed over and put on record under it exactly when this node lost the key or was on record as its primary; otherwise no copy or record of it changes anywhere |
| `Rebalance.TickHints` | pkg/backend/dist_memory.go:2353-2392 | the hints a tick adds are exactly those for items it would hand over to an unreachable primary, if hints are kept |
| `Rebalance.TickSendsIff` | pkg/backend/dist_memory.go:2050-2423 | a tick attempts a forward if and only if some held key has to be handed over or lacks a replica |
| `Rebalance.TickPushesBackIff` | pkg/backend/dist_memory.go:2249-2423 | a tick pushes another node back if and only if it sends it a key while that node holds an item that beats the ticking node's |
| `Rebalance.LateTickUndoesWrite` | pkg/backend/dist_memory.go:2353-2423 | the new primary has accepted a newer write; the old primary's tick overwrites it |
| `Rebalance.CollectRebalanceCandidates` | pkg/backend/dist_memory.go:2077-2139 | each local item whose primary is another node and that this node lost or was primary of, once |
| `Rebalance.MigrateItems` | pkg/backend/dist_memory.go:2311-2350 | concurrent batches, interleaved item by item, migrate every item once, in some order |
| `Rebalance.ReplicateNewReplicas` | pkg/backend/dist_memory.go:2143-2201 | the replica diff over a snapshot of the local items |
| `Rebalance.RunRebalanceTick` | pkg/backend/dist_memory.go:2050-2073 | the method performs such a tick, so the theorems above apply |
| `Hints.EnqueueInv` | pkg/backend/dist_memory.go:2952-3012 | queueing keeps the caps, counters at or below the queues, and every hint accounted for |
| `Hints.EnqueueExactIff` | pkg/backend/dist_memory.go:2967-2984 | queueing keeps the counters exact if and only if it does not drop an oldest entry and then refuse the new one on the byte cap |
| `Hints.ReplayCountersSum` | pkg/backend/dist_memory.go:3088-3179 | the clamped per-entry bookkeeping of a pass adds up, each removal counted once: as expired exactly when its time is over, else as replayed |
| `Hints.ReplayNodeInv` | pkg/backend/dist_memory.go:3088-3123 | replaying one queue keeps the invariant |
| `Hints.KeptInOrder` | pkg/backend/dist_memory.go:3088-3123 | a pass leaves, in order, exactly the entries neither expired nor delivered |
| `Hints.HintStays` | pkg/backend/dist_memory.go:2952-3179 | an accepted hint is still queued after any further calls while every pass runs by its expiry and delivers nothing to its node, and fewer calls than the per-node cap queue for that node |
| `Hints.HintsComeFromCalls` | pkg/backend/dist_memory.go:2952-3179 | every queued hint was queued by a call for its node, expires the lifetime after it, and no pass over its node since ran later than that |
| `Hints.NoEmptyQueues` | pkg/backend/dist_memory.go:3112-3117 | in every reachable state a listed node has a hint pending |
| `Hints.HintAccounting` | pkg/backend/dist_memory.go:2952-3179 | in every reachable state the caps hold and the counters never overstate; exact unless per-node and byte cap are both on; without a per-node cap queued = replayed + expired + pending, also for migration hints |
| `Hints.DriftOverrunsByteCap` | pkg/backend/dist_memory.go:2967-2984 | with both caps on, three calls leave twice the byte budget queued |
| `Hints.HintQueue.AdjustAccounting` | pkg/backend/dist_memory.go:3042-3053 | both counters move by the deltas, clamped at zero |
| `Hints.HintQueue.QueueHint` | pkg/backend/dist_memory.go:2952-3012 | one queued hint, every branch |
| `Hints.HintQueue.ReplayQueue` | pkg/backend/dist_memory.go:3088-3123 | in-place compaction of one queue in its own array |
| `Hints.HintQueue.ReplayHints` | pkg/backend/dist_memory.go:3088-3123 | a full pass over the nodes in map order |
| `LinkedList.List.PushFront` | pkg/eviction/arc.go:28-42 | pushes one node at the front of a well-formed list |
| `LinkedList.List.Remove` | pkg/eviction/arc.go:44-66 | unlinks exactly one node; the rest keeps its order and links |
| `LinkedList.List.RemoveTail` | pkg/eviction/arc.go:68-77 | unlinks the last node, or none when empty |
| `ArcPolicy.SetInv` | pkg/eviction/arc.go:203-220 | Set keeps the structure, through all four of its paths |
| `ArcPolicy.SetRemembers` | pkg/eviction/arc.go:203-220 | Set makes its key resident with the new value; no other key vanishes from the four lists but the oldest ghost of the list it trims |
| `ArcPolicy.DeleteInv` | pkg/eviction/arc.go:223-258 | Delete removes every trace of the key and of no other, and keeps the structure |
| `ArcPolicy.ReplaceInv` | pkg/eviction/arc.go:279-304 | replace keeps the structure and evicts one resident unless T1 is within target and T2 empty |
| `ArcPolicy.Reachable` | pkg/eviction/arc.go:176-433 | in every reachable state the four key sets are disjoint, length = |T1| + |T2|, |T1| <= capacity and 0 <= p <= capacity |
| `ArcPolicy.ResidentsAreLastSet` | pkg/eviction/arc.go:176-433 | every resident holds the value last Set for its key |
| `ArcPolicy.HitReturnsLastSet` | pkg/eviction/arc.go:176-200 | every Get hit returns the value last Set for its key |
| `ArcPolicy.SetWithinCapacityIff` | pkg/eviction/arc.go:381-433 | a Set keeps |T1| + |T2| within capacity exactly when it is neither of two overfilling cases |
| `ArcPolicy.ResidentsUnbounded` | pkg/eviction/arc.go:332-433 | at every capacity of at least one, for every n some run of Sets and Gets leaves n residents |
| `ArcOrder.RunByUse` | pkg/eviction/arc.go:176-433 | over any run T1 and T2 each stand by latest access, the most recent first, strictly |
| `ArcOrder.RunByLeaving` | pkg/eviction/arc.go:279-304 | over any run B1 and B2 each stand by the time their keys ceased to be resident, the latest first, strictly |
| `ArcOrder.T2IsFrequent` | pkg/eviction/arc.go:176-378 | a resident is in T2 exactly when it was accessed again since it entered, or entered by a ghost hit |
| `ArcOrder.B2LeftFrequent` | pkg/eviction/arc.go:279-304 | a ghost is in B2 exactly when it was frequent when it left, and in B1 otherwise |
| `ArcOrder.EvictsOldest` | pkg/eviction/arc.go:261-304 | after any run Evict takes exactly the least recently used key of T1 if T1 is above its target, else of T2, and makes it a ghost of the matching list |
| `ArcOrder.SetTakesOldest` | pkg/eviction/arc.go:332-433 | another resident loses its place to a Set exactly when it is the least recently used of the list the Set takes from, given by the list sizes and the target |
| `ArcOrder.TargetMoves` | pkg/eviction/arc.go:332-378 | a B1 hit raises the target by |B2| over |B1|, at least one, up to the capacity; a B2 hit lowers it by the inverse, down to zero; nothing else moves it |
| `ArcCache.ARC.Get` | pkg/eviction/arc.go:176-200 | the pointer-level Get is the policy's |
| `ArcCache.ARC.Set` | pkg/eviction/arc.go:203-220 | the pointer-level Set is the policy's |
| `ArcCache.ARC.Delete` | pkg/eviction/arc.go:223-258 | the pointer-level Delete is the policy's |
| `ArcCache.ARC.Evict` | pkg/eviction/arc.go:261-275 | the pointer-level Evict is the policy's |
| `ArcCache.RunArc` | pkg/eviction/arc.go:176-275 | any operations fed to an ARC object get the policy's replies |
| `ArcCache.ARC.Replace` | pkg/eviction/arc.go:279-304 | the pointer-level replace is the policy's |
| `ArcCache.ARC.GhostHitB1` | pkg/eviction/arc.go:332-378 | a B1 hit adapts p, replaces, and admits the key to T2 |
| `ArcCache.ARC.GhostHitB2` | pkg/eviction/arc.go:332-378 | a B2 hit likewise |
| `ArcCache.ARC.EnsureCapacityForNew` | pkg/eviction/arc.go:394-402 | the two trims, chosen as the source does |
| `ArcCache.ARC.TrimForHistoryLimit` | pkg/eviction/arc.go:405-421 | drops a ghost or demotes T1's oldest |
| `ArcCache.ARC.TrimForTotalLimit` | pkg/eviction/arc.go:424-433 | drops a B2 ghost at twice the capacity, then replaces |
| `ArcCache.ARC.InsertNew` | pkg/eviction/arc.go:381-391 | a new key goes to the front of T1 |
| `LfuPolicy.StepInv` | pkg/eviction/lfu.go:93-199 | every operation keeps size <= capacity and distinct access times |
| `LfuPolicy.SetKeepsOthersIff` | pkg/eviction/lfu.go:105-144 | another key leaves on a Set exactly when it is the victim of a full cache making room for a new key |
| `LfuPolicy.StepKeys` | pkg/eviction/lfu.go:93-199 | the keys each operation leaves tracked |
| `LfuPolicy.CellsAreTheTrace` | pkg/eviction/lfu.go:105-164 | over any run every tracked key shows the value of its latest Set, and its count is the number of its accesses since it was last untracked |
| `LfuPolicy.LastsAreTheTrace` | pkg/eviction/lfu.go:105-164 | access times order the keys as their latest accesses do |
| `LfuPolicy.EvictsLeastUsed` | pkg/eviction/lfu.go:93-102 | after any run Evict removes exactly the key with the fewest accesses since it entered, the longest unused among those |
| `LfuCache.FrequencyHeap.Up` | pkg/eviction/lfu.go:38-52 | the sift up restores heap order and keeps every back-index |
| `LfuCache.FrequencyHeap.Down` | pkg/eviction/lfu.go:38-52 | the sift down likewise |
| `LfuCache.FrequencyHeap.Fix` | pkg/eviction/lfu.go:38-75 | re-sorting one changed node restores the heap |
| `LfuCache.FrequencyHeap.Push` | pkg/eviction/lfu.go:55-63 | adds one node to the heap |
| `LfuCache.FrequencyHeap.Pop` | pkg/eviction/lfu.go:66-75 | removes the root |
| `LfuCache.FrequencyHeap.Remove` | pkg/eviction/lfu.go:66-75 | removes the node at any position |
| `LfuCache.LFU.Set` | pkg/eviction/lfu.go:105-144 | heap and map together behave as the policy's Set |
| `LfuCache.LFU.Get` | pkg/eviction/lfu.go:147-164 | as the policy's Get |
| `LfuCache.LFU.Delete` | pkg/eviction/lfu.go:167-181 | as the policy's Delete |
| `LfuCache.LFU.Evict` | pkg/eviction/lfu.go:93-102 | as the policy's Evict: the heap's root is the unique victim |
| `LfuCache.LFU.InternalEvict` | pkg/eviction/lfu.go:184-199 | drops the policy's victim, or reports none when empty |
| `LfuCache.RunLfu` | pkg/eviction/lfu.go:93-199 | any operations fed to an LFU object get the policy's replies |
| `Recency.RunAgrees` | pkg/eviction/lru.go:46-139 | over any run the list is within capacity, holds the latest Set values, and is in strict order of latest access |
| `Recency.HitReturnsLastSet` | pkg/eviction/lru.go:46-59 | every hit returns the value last Set |
| `Recency.EvictsLeastRecent` | pkg/eviction/lru.go:107-123 | after any run Evict removes exactly the tracked key whose latest access is oldest |
| `Recency.StepNoDup` | pkg/eviction/lru.go:46-139 | every operation keeps keys distinct and the size within capacity |
| `Recency.StepKeeps` | pkg/eviction/lru.go:46-139 | exactly which keys are tracked after each operation, and how many |
| `Recency.LargerIncludesSmaller` | pkg/eviction/lru.go:46-139 | for any operations a cache of larger capacity tracks everything a smaller one does |
| `Recency.LargerHitsMore` | pkg/eviction/lru.go:46-59 | every hit of the smaller cache is a hit of the larger one with the same value |
| `LruCache.LRU.Unlink` | pkg/eviction/lru.go:160-176 | removeFromList's pointer surgery joins the neighbours of exactly one node |
| `LruCache.LRU.LinkFront` | pkg/eviction/lru.go:187-198 | addToFront's pointer surgery links one node first |
| `LruCache.LRU.MoveToFront` | pkg/eviction/lru.go:150-157 | moves one node to the front, the rest keeps its order |
| `LruCache.LRU.Get` | pkg/eviction/lru.go:46-59 | the linked list with its index behaves as the policy's Get |
| `LruCache.LRU.Set` | pkg/eviction/lru.go:63-104 | as the policy's Set |
| `LruCache.LRU.Evict` | pkg/eviction/lru.go:107-123 | as the policy's Evict |
| `LruCache.LRU.Delete` | pkg/eviction/lru.go:126-139 | as the policy's Delete |
| `LruCache.RunLru` | pkg/eviction/lru.go:46-139 | any operations fed to an LRU get the policy's replies |
| `CawolfuCache.SpliceOut` | pkg/eviction/cawolfu.go:220-249 | moveToFront's first half takes one non-head node out of the chain |
| `CawolfuCache.MoveToFront` | pkg/eviction/cawolfu.go:220-249 | moves one node to the front, the rest keeps its order |
| `CawolfuCache.CAWOLFU.Get` | pkg/eviction/cawolfu.go:137-150 | behaves as the recency policy's Get; the access count decides nothing |
| `CawolfuCache.CAWOLFU.Set` | pkg/eviction/cawolfu.go:82-134 | as the recency policy's Set |
| `CawolfuCache.CAWOLFU.Evict` | pkg/eviction/cawolfu.go:58-79 | as the recency policy's Evict |
| `CawolfuCache.CAWOLFU.Delete` | pkg/eviction/cawolfu.go:177-193 | as the recency policy's Delete |
| `CawolfuCache.RunCawolfu` | pkg/eviction/cawolfu.go:58-193 | any operations fed to a CAWOLFU get the recency policy's replies |
| `CawolfuCache.RunBoth` | pkg/eviction/cawolfu.go:58-249 | LRU and CAWOLFU of one capacity, fed the same operations, give identical hits, values and victims |
| `ClockPolicy.FailedSweep` | pkg/eviction/clock.go:36-71 | a sweep without a victim lowers every occupied count by one and brings the hand home |
| `ClockPolicy.EvictFailsIff` | pkg/eviction/clock.go:36-71 | Evict finds no victim exactly when no slot is occupied with count zero |
| `ClockPolicy.VictimAfterLeast` | pkg/eviction/clock.go:36-71 | with least count m exactly the first m Evict calls fail; call m + 1 takes the first key ahead of the hand whose count is least |
| `ClockPolicy.RunKeeps` | pkg/eviction/clock.go:36-199 | over any run no key is in two slots and every slot holds its key's latest Set value |
| `ClockPolicy.HitReturnsLastSet` | pkg/eviction/clock.go:96-109 | every hit returns the value last Set |
| `ClockPolicy.StepAt` | pkg/eviction/clock.go:36-199 | what each operation leaves in each slot, by distances from the hand |
| `ClockPolicy.StepHand` | pkg/eviction/clock.go:36-199 | where each operation leaves the hand: on the slot an Evict freed, past the slot a new key took, else where it was |
| `ClockPolicy.CountsAreTheTrace` | pkg/eviction/clock.go:36-199 | over any run a tracked key's count is its accesses since it entered less the sweeps that passed it |
| `ClockPolicy.SetTracksIff` | pkg/eviction/clock.go:74-93 | Set leaves its key tracked exactly when it was tracked, or some slot is free or idle |
| `ClockPolicy.SetKeepsOthersIff` | pkg/eviction/clock.go:74-93 | another key leaves on a Set exactly when it is in the first idle slot of a full dial and the key is new |
| `ClockPolicy.EvictAfterSetIff` | pkg/eviction/clock.go:166-199 | an Evict right after a Set finds a victim exactly under a condition on the dial before the Set |
| `ClockCache.ClockAlgorithm.Sweep` | pkg/eviction/clock.go:44-70 | stops at the first idle slot ahead of the hand, having lowered exactly the occupied slots it passed |
| `ClockCache.ClockAlgorithm.TryInsertInFreeSlot` | pkg/eviction/clock.go:143-164 | takes the first free slot ahead of the hand, or comes home unchanged when there is none |
| `ClockCache.ClockAlgorithm.UpdateIfExists` | pkg/eviction/clock.go:130-141 | updates a tracked key, changes nothing otherwise |
| `ClockCache.ClockAlgorithm.EvictAndInsert` | pkg/eviction/clock.go:166-199 | replaces the first idle slot of a full dial, or only lowers the counts |
| `ClockCache.ClockAlgorithm.Evict` | pkg/eviction/clock.go:36-71 | behaves as the policy's Evict; slots and key index stay in bijection |
| `ClockCache.ClockAlgorithm.Set` | pkg/eviction/clock.go:74-93 | behaves as the policy's Set; slots and key index stay in bijection |
| `ClockCache.ClockAlgorithm.Get` | pkg/eviction/clock.go:96-109 | behaves as the policy's Get |
| `ClockCache.ClockAlgorithm.Delete` | pkg/eviction/clock.go:112-126 | behaves as the policy's Delete |
| `ClockCache.RunClock` | pkg/eviction/clock.go:36-203 | any operations fed to a clock object get the policy's replies |
| `Algorithm.SetTracks` | pkg/eviction/eviction.go:12-21 | Set tracks only old keys and its own; all but the clock track their own when the capacity is positive |
| `Algorithm.DeleteTracks` | pkg/eviction/eviction.go:12-21 | Delete untracks exactly its key |
| `Algorithm.EvictTracks` | pkg/eviction/eviction.go:12-21 | Evict untracks exactly its victim; only the clock can fail while it tracks a key |
| `Bits.AndLowMask` | pkg/eviction/sharded.go:113-115 | masking with a power of two less one is taking the remainder |
| `Bits.PowerOfTwoTest` | pkg/eviction/sharded.go:35-37 | the test n & (n - 1) == 0 accepts exactly the powers of two |
| `Sharding.NewShape` | pkg/eviction/sharded.go:34-66 | construction fails exactly for a count that is no power of two up to 2^32, a negative capacity or an unregistered algorithm name |
| `Sharding.NewInv` | pkg/eviction/sharded.go:34-66 | a built wrapper tracks nothing, its cursor is zero, and every shard's capacity is the total over the count, rounded up |
| `Sharding.CapacitySplit` | pkg/eviction/sharded.go:43-43 | the shard capacities sum to the total exactly when the count divides it, and otherwise exceed it by less than one per shard |
| `Sharding.RouteIsMod` | pkg/eviction/sharded.go:113-115 | wrapping at 2^32 and masking is the remainder by the shard count |
| `Sharding.SetTracks` | pkg/eviction/sharded.go:69-71 | Set goes to the key's own shard and tracks nothing else |
| `Sharding.DeleteTracks` | pkg/eviction/sharded.go:79-81 | Delete untracks exactly its key |
| `Sharding.EvictTracks` | pkg/eviction/sharded.go:91-108 | Evict untracks exactly its victim; without clocks it fails exactly when nothing is tracked |
| `Sharding.EvictFailsIff` | pkg/eviction/sharded.go:91-108 | Evict fails exactly when every shard's Evict would, or the shard count does not fit 32 bits |
| `Sharding.ClocksEvictFailsIff` | pkg/eviction/sharded.go:91-108 | over clocks it fails exactly when no slot of any shard is occupied with count zero |
| `Sharding.FullClocksCanFail` | pkg/eviction/sharded.go:91-108 | two clocks of one slot, built and then given one key each: the wrapper's invariant holds, both keys are tracked, and Evict finds no victim |
| `Sharding.OneShard` | hypercache_eviction.go:37-57 | a single shard forwards every operation to its algorithm |
| `Sharding.RoundRobin` | pkg/eviction/sharded.go:91-108 | while every shard has a victim, call i takes shard (cursor + i) mod n's, across the wrap of the 32-bit cursor |
| `Sharding.FullRound` | pkg/eviction/sharded.go:91-108 | a round of n calls takes exactly one victim from every shard |
| `ShardedCache.NewSharded` | pkg/eviction/sharded.go:34-66 | an error exactly for a bad count, a negative capacity or an unregistered name; otherwise the shards as split, empty, and orderly for every algorithm but the clock when the capacity is positive |
| `ShardedCache.Sharded.Set` | pkg/eviction/sharded.go:69-71 | the policy's Set on the key's shard |
| `ShardedCache.Sharded.Delete` | pkg/eviction/sharded.go:79-81 | the policy's Delete on the key's shard |
| `ShardedCache.Sharded.Evict` | pkg/eviction/sharded.go:91-108 | the wrapping loop asks each shard at most once, in cyclic order, and takes the first victim |
| `CachePolicy.InsertInv` | hypercache_io.go:42-59 | an accepted write keeps the tracked keys stored; it evicts one item exactly when it overfills and the tracker has a victim |
| `CachePolicy.StoredIsLastWrite` | hypercache_io.go:19-176 | over every run whatever is stored under a key is the value of its latest accepted write |
| `CachePolicy.HitReturnsLastWrite` | hypercache_io.go:65-84 | a Get after any run: a hit is the latest accepted write of the key, and only an expired or absent key is missed |
| `CachePolicy.SetReplies` | hypercache_io.go:19-62 | a Set after any run: each reply exactly when its check decides, the byte check on the stored total plus the overcount; only an accepted write touches the store, and it leaves its own item and the others, but for one out of an overfull cache |
| `CachePolicy.GetOrSetReplies` | hypercache_io.go:113-176 | a GetOrSet after any run: a stored key gives its latest accepted write or, if expired, an error, and changes nothing; an absent one is written and gives the value or the error of the check that failed |
| `CachePolicy.EvictItemInv` | hypercache_eviction.go:180-193 | eviction removes one stored item exactly when the tracker has a victim |
| `CachePolicy.RemoveInv` | hypercache_io.go:266-284 | Remove keeps the tracked keys stored |
| `CachePolicy.ClearInv` | hypercache_io.go:287-313 | Clear untracks every key |
| `CachePolicy.InsertBoundedIff` | hypercache_io.go:56-59 | a write leaves the item bound exactly when it overfills and the tracker has no victim |
| `CachePolicy.ItemBound` | hypercache_io.go:19-62 | proactive eviction with LRU, CAWOLFU or LFU, sharded or not: over every run tracked keys are stored and the item count never exceeds the capacity after an operation |
| `CachePolicy.CounterExact` | hypercache_io.go:19-62 | over every run memoryAllocation is the stored total plus the sizes overwritten or rejected since the last Clear, less those removed twice in one call, exactly |
| `CachePolicy.RemoveExactIff` | hypercache_io.go:269-276 | a removal takes the right number of bytes off exactly when no stored key of positive size is listed twice |
| `CachePolicy.ByteBound` | hypercache_io.go:19-62 | with sizes not negative and no key listed twice in one Remove, over every run stored bytes <= memoryAllocation <= maxCacheSize |
| `CachePolicy.ClockBoundedIff` | hypercache_io.go:56-59 | with clocks, one or sharded, a write keeps the item bound exactly when it does not overfill, or its Set leaves an idle slot in the key's own dial, or another dial has one |
| `CachePolicy.ClockExceedsCapacity` | hypercache_io.go:56-59 | capacity one, one-slot clock: three writes leave two items stored |
| `CachePolicy.RepeatedRemoveUndercounts` | hypercache_io.go:269-276 | removing a key listed twice pushes the counter below the stored total |
| `CachePolicy.RewritesFillTheCache` | hypercache_io.go:35-41 | n writes of one key of size s leave the counter at n * s with one item stored; the next is refused exactly when it would pass the limit |
| `HyperCaches.NewHyperCache` | hypercache_eviction.go:15-57 | an error exactly for an eviction count beyond an int, an unregistered name or a shard count the wrapper refuses; otherwise an empty cache whose tracker is built for the documented name, total and shard count |
| `HyperCaches.HyperCache.Set` | hypercache_io.go:19-62 | one write, every error path included |
| `HyperCaches.HyperCache.GetOrSet` | hypercache_io.go:113-176 | hit, expired or write, with the source's reply for each |
| `HyperCaches.HyperCache.Remove` | hypercache_io.go:266-284 | the counting and untracking loop, then the removal |
| `HyperCaches.HyperCache.Clear` | hypercache_io.go:287-313 | the store emptied, every listed key untracked, the counter reset |
| `HyperCaches.HyperCache.EvictItem` | hypercache_eviction.go:180-193 | the tracker's victim removed, if there is one |
| `Pool.StepInv` | pool.go:46-81 | every atomic step of any goroutine keeps the lock, closing, counting and job invariants |
| `Pool.PoolSafe` | pool.go:46-143 | in every interleaving no send hits a closed channel, no channel is closed twice, the wait count is mid-send plus buffered plus running jobs, and no job runs twice or unaccepted |
| `Pool.ShutdownWaitsForAll` | pool.go:61-81 | once Shutdown has passed its wait every accepted job has run exactly once |
| `Pool.DeadlockIff` | pool.go:46-143 | some Shutdown has not returned and no goroutine can step if and only if the callers are parked, behind a queued Shutdown or each other, the error channel is full, every remaining worker waits to report on it, and either jobs are closed with some outstanding or a full buffer holds up a sender and with it the read lock |
| `Pool.ShutdownBlockedIff` | pool.go:46-143 | a run of a pool of at least one worker that has come to rest has a Shutdown that did not return if and only if one was called and more jobs failed than the error channel holds and readers took |
| `Pool.SchedulesEnd` | pool.go:46-143 | no livelock: goroutines take only so many effective steps before the pool rests |
| `Pool.ShutdownCanReturn` | pool.go:61-143 | from any point of any run at which no more jobs failed than the error channel holds and readers took, the goroutines can go on until every Shutdown has returned, with nobody reading errors |
| `Pool.DeadForever` | pool.go:46-143 | such a pool stays so through every step of every goroutine, and no Shutdown gets past its wait, until somebody reads an error |
| `Pool.UnreadErrorsBlockShutdown` | pool.go:123-143 | two failing jobs of one worker whose errors nobody reads, then Shutdown: deadlock after the close |
| `Pool.HeldUpSenderBlocksShutdown` | pool.go:46-81 | a third job fills the buffer, a fourth caller is held up at the send, Shutdown queues for the lock and a fifth caller waits behind it: deadlock before the close |
| `GossipPolicy.IncarnationsNeverFall` | pkg/backend/dist_memory.go:3468-3509 | over any run of merges, refutations and marks without removals no recorded incarnation falls |
| `GossipPolicy.MarkSpreads` | internal/cluster/membership.go:165-199 | a change of state raises the incarnation by one, so that any member not ahead of the marker takes it over |
| `GossipPolicy.VersionTells` | internal/cluster/membership.go:59-241 | over any run the membership version never falls, and it rises whenever members or ring change |
| `GossipPolicy.RemovalForgets` | pkg/backend/dist_memory.go:4708-4726 | a removal followed by an older claim brings a node back at the lower incarnation |
| `GossipPolicy.RemovesOne` | internal/cluster/membership.go:105-135 | a removal takes one node off the list and off the ring, and no other |
| `GossipPolicy.RefutedAfterExactly` | pkg/backend/dist_memory.go:3522-3544 | a claim at N against local i <= N raises it by one per delivery until N + 1, after N - i + 1 deliveries, and is ignored from then on |
| `GossipPolicy.SuspicionClearsAfterExactly` | pkg/backend/dist_memory.go:3409-3509 | two members exchanging snapshots in any order: the suspicion stays for exactly N - i exchanges and is cleared by the next |
| `GossipPolicy.ThirdPartyAgreesIff` | pkg/backend/dist_memory.go:3468-3509 | about a third node two members agree after an exchange exactly when their records were equal or at different incarnations; otherwise neither changes its mind |
| `GossipPolicy.MarkKeepsRingIff` | internal/cluster/membership.go:165-199 | Mark leaves the ring matching the non-dead members exactly when it does not take a node into or out of Dead |
| `GossipPolicy.RefuteKeepsRingIff` | internal/cluster/membership.go:218-241 | Refute likewise, exactly when the node was not held dead |
| `GossipPolicy.MergeKeepsRing` | pkg/backend/dist_memory.go:3468-3509 | a merge keeps the ring matching while the local node is not held dead |
| `GossipPolicy.RevivedNodeMissesRing` | internal/cluster/membership.go:165-199 | a node gossiped dead and then probed alive is a live member missing from the ring |
| `Membership.Members.Upsert` | internal/cluster/membership.go:59-80 | adds or replaces a node and rebuilds the ring from the non-dead members |
| `Membership.Members.Remove` | internal/cluster/membership.go:105-135 | removes a known node and rebuilds the ring |
| `Membership.Members.Mark` | internal/cluster/membership.go:165-199 | a change of state raises the incarnation in place; the same state changes nothing |
| `Membership.Members.Refute` | internal/cluster/membership.go:218-241 | raises the incarnation and sets Alive, in place |
| `Membership.Member.RefuteIfSuspected` | pkg/backend/dist_memory.go:3522-3544 | the check through the member's own reference is the merge of a claim about itself |
| `Membership.Member.AcceptGossip` | pkg/backend/dist_memory.go:3468-3509 | merges the claims one after the other |
| `RepairPolicy.PendingIsBest` | pkg/backend/dist_read_repair.go:105-145 | between flushes the pending repair for a peer and key is the best of all items enqueued for it, and there is one exactly when some were |
| `RepairPolicy.CoalescingPreservesIff` | pkg/backend/dist_read_repair.go:105-145 | receivers overwrite: flushing the one pending repair leaves the peer as sending every enqueued item in order would, if and only if the last enqueued is the first best of them; what it leaves is never below the last |
| `RepairPolicy.CoalescingCanDiffer` | pkg/backend/dist_read_repair.go:105-145 | a newer item queued before an older one |
| `RepairPolicy.RepairsConserved` | pkg/backend/dist_read_repair.go:105-255 | over any run every non-nil enqueue is coalesced, batched, pending or dropped for want of a transport, exactly once |
| `RepairPolicy.CountersAreTheTrace` | pkg/backend/dist_read_repair.go:105-255 | batched counts what was pending at flushes that found a transport, coalesced the enqueues that found one pending |
| `RepairQueues.RepairQueue.Enqueue` | pkg/backend/dist_read_repair.go:105-145 | one enqueue, and exactly when it makes a flush due |
| `RepairQueues.RepairQueue.FlushPeer` | pkg/backend/dist_read_repair.go:202-255 | detaches the peer's batch and sends each pending repair once |
| `RepairQueues.RepairQueue.FlushAll` | pkg/backend/dist_read_repair.go:180-193 | nothing stays pending, and the counters move by what was |

## Left out

- HTTP server and client, TLS, authentication, management endpoints, events, typed wrapper: I/O and plumbing.
- Redis backends, serializers, telemetry, logging, metrics other than the counters named above, middleware.
- Hash functions are parameters: ring hashes with ties treated explicitly, leaf digests assumed free of
  collisions between the chunks compared, shard hashes arbitrary.
- Clocks and timers: expiry, delivery results, probe results and iteration orders are inputs; random choices
  are arbitrary.
- Integer overflow of versions, counts, access clocks and incarnations; only the 32-bit eviction cursor wraps.
- ConcurrentMap locking and the in-memory backend are a plain map; a cancelled context is not modelled.
- Object pools: a pooled node is a new one.
- Locks of the single-mutex objects: each method is one atomic call. The worker pool and the migration batches
  are interleaved.
- Map iteration in `Merkle.Store` and `RepairQueues.RepairQueue` picks any next key, as the source's does.
- The folded Merkle root, which no comparison reads, and the key-listing fallback of a remote HTTP peer.
- Removal grace periods and per-tick limits of the rebalancer; within its concurrent batches one item's migration
  is one step.
- WorkerPool.Resize, SetCapacity and the periodic eviction loop; expiry reaches the cache as Remove calls.
- The sharded wrapper's Get, which the cache never calls.
- ARC inside the local cache: it is not registered by default.
- CawolfuCache.CAWOLFU.Set: the length is kept in the list object, and two branches no state reaches (an empty
  list when full, evicting the key being set) are not written out.
- Access times and counts kept on stored items; nothing modelled reads them.
- RepairQueues.RepairQueue.FlushPeer: sends are sequential and their failures invisible, as they are to the queue.
