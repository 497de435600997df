# clustergo, verified

A Dafny model of the protocols of clustergo, a cluster messaging framework written in Go, with
proofs about whole runs. Each module stays close to one part of the program: objects that change
fields are classes whose methods are proved against functions on values, and the theorems are
about those functions and about runs of steps. Every region held under a mutex, every atomic map
operation or compare-and-swap and every Lua script is one step.

| modules | part of the program |
|---|---|
| Basics, Addr | shared definitions; 14/8/10-bit logical addresses |
| Membership, KvClient, KvStore | member deltas; the etcd and NATS clients; the clients beside the buckets they watch |
| Versioned, Redis, RedisSync, RedisHistory | the Redis scripts, the Redis client, the protocol between them, and the store told from its history |
| NodeCache, Feed, Routing | the node cache, the cache fed with deltas, next-hop routing |
| Directory, KvDirectory | the chains from Redis and from etcd or NATS to the cache |
| Peer, TwoNode | the pending queue and connection of one peer; two nodes dialing each other |
| AsyncCall, SyncCall, Sequence, RpcServer | RPC call matching, sequence numbers, the server's repliers and its pending counter |
| Bytes, Frames, SendLoop, RpcCodec, SsCodec, Wire | the byte path: batching, framing, codecs, relaying, end to end |
| Diff | the snapshot comparison of the example membership client |

Environment: the clock, dial results, hash iteration order, sizes and errors of reads, outcomes of
writes, and interleavings are arguments of the steps, so every statement is for all of them.

Some properties one would expect do not hold of the code. They are stated with the exact condition
under which they hold, and with a run or an input that violates it:

- A Redis client that recovers refetches from version 0, which omits tombstones: a member removed
  meanwhile stays (`RedisSync.MembersRunExact`, `RecoveryKeepsRemovedMember`).
- A heartbeat for a node marked dead truncates its record, which hides the death from clients that
  had not seen it (`RedisSync.AlivesRunExact`, `DeadBeatHidesDeath`).
- Membership records of harbors never parse, because the record parser uses the parser for ordinary
  addresses (`RedisSync.LiveMembersComplete`, `HarborMemberLost`).
- Address fields of 2^32 or more lose their upper bits before the range check, so cluster 2^32 is
  accepted as cluster 0 (`Addr.ParseExact`, `WrappedCluster`).
- An etcd batch that deletes and puts one key loses the member at the consumer
  (`KvClient.ConfigBatchExact`, `BatchLosesMember`).
- A member whose export flag is turned on later makes the node cache panic
  (`NodeCache.OnUpdateExact`, `LateExportCrashes`).
- A full-queue purge that empties the queue of the smaller side lets it dial twice, and the two ends
  can then hold different connections (`TwoNode.SendSafeExact`, `PurgeHappens`, `LatePurgeHappens`).
- A pooled call context can be reused while its previous call is still sending
  (`AsyncCall.RecycleExact`, `HazardArises`).
- A send that fails after the peer answered pools a channel with a response in it
  (`SyncCall.LateFailureExact`, `LateFailureArises`). The channels of this repository report failure
  only when the request was not queued; it takes another implementation of the channel interface.
- The pending-map index is negative for most numbers made from timestamps of 2^31 or more
  (`Sequence.ShardInRangeExact`, `NegativeShard`).
- An interceptor that answers before the counting one and lets the request through leaks a count
  (`RpcServer.RunExact`, `LeakArises`, `LeakStays`).
- A protobuf id of 65536 or more arrives as another type (`SsCodec.AdmittedExact`, `WideIdMistaken`).
- A packet that repeats an address makes the example client emit an ill-formed delta
  (`Diff.RunExact`, `RepeatedAddress`).
- A snapshot that only changes an export flag is not reported by the example client
  (`Diff.StepExact`, `ExportChangeLost`).

The purge has a flag for messages without a deadline; it has no effect, since a zero deadline
already counts as passed (`Peer.RemoveZeroIrrelevant`).

Closing a socket shuts its connection right after it signals the send loop, so the writes of
`SendLoop.DrainDelivers` succeed only if the loop gets to them first.

## Model

| member | source | states |
|---|---|---|
| `Addr.PackFields` | addr/addr.go:76-86 | packing cluster, type and server into 14, 8 and 10 bits and reading the fields back returns them |
| `Addr.FieldsPack` | addr/addr.go:76-86 | the three fields of any 32-bit address are in range and rebuild exactly that address |
| `Addr.FieldsInjective` | addr/addr.go:76-86 | two addresses with the same three fields are the same address |
| `Addr.DecodableExact` | addr/addr.go:100-136 | an address survives being written as text and parsed as an ordinary address if and only if its cluster and type are not zero and it is not a harbor |
| `Addr.HarborRoundTrip` | addr/addr.go:138-175 | an address survives the harbor parser if and only if its cluster is not zero and it is a harbor |
| `Addr.LayoutExact` | addr/addr.go:76-86 | the layout in numbers: cluster times 2^18, type times 2^10, server |
| `Addr.OrderExact` | addr/addr.go:76-86 | comparing addresses compares cluster, then type, then server |
| `Addr.ParseExact` | addr/addr.go:100-136 | three numbers parse to the address with exactly these fields if and only if cluster is 1 to 16383, type 1 to 254 and server 0 to 1023 |
| `Addr.WrappedCluster` | addr/addr.go:100-136 | larger numbers are cut to 32 bits before the range check: cluster 2^32 is accepted as cluster 0 |
| `Membership.ApplyAt` | node.go:100-176 | what a consumer that takes additions, then removals, then updates ends up with at one address |
| `Membership.WellFormedExact` | node.go:100-176 | a delta adds only absent and removes or updates only present addresses, in the order the consumer takes them, if and only if a count condition holds at every address |
| `KvClient.Client.GetMembers` | membership/etcd/etcd.go:48-97 | a full member snapshot replaces the member map and emits the snapshot delta |
| `KvClient.Client.GetAlives` | membership/etcd/etcd.go:99-142 | a full heartbeat snapshot replaces the alive set and emits the availability updates |
| `KvClient.Client.HandleConfigEvents` | membership/etcd/etcd.go:194-233 | one batch of config events edits the member map event by event and emits one delta |
| `KvClient.Client.HandleAliveEvents` | membership/etcd/etcd.go:235-269 | one batch of heartbeat events edits the alive set and emits the availability updates |
| `KvClient.SnapshotApplied` | membership/natsjet/subscribe.go:20-81 | the delta of a full member snapshot takes the old join of members and heartbeats to the new one |
| `KvClient.SnapshotWellFormed` | membership/natsjet/subscribe.go:20-81 | and it is well formed |
| `KvClient.AliveSnapshotExact` | membership/natsjet/subscribe.go:83-135 | the delta of a full heartbeat snapshot is well formed and takes the old join to the new one |
| `KvClient.AliveBatchExact` | membership/natsjet/subscribe.go:184-219 | folding the updates of any batch of heartbeat events over the old join gives the new join |
| `KvClient.ConfigBatchExact` | membership/etcd/etcd.go:194-233 | the delta of a batch of config events is well formed if and only if, per key, the batch is clean: a known key is not both put and deleted, an unknown key is put at most once or not deleted after a put; clean batches take the old join to the new one |
| `KvClient.SingleEventClean` | membership/natsjet/subscribe.go:137-182 | a batch of at most one event is always clean |
| `KvClient.StepExact` | membership/etcd/etcd.go:48-269 | one input of any kind: its delta is well formed exactly when a config batch is clean, and then takes the old join to the new one |
| `KvClient.RunExact` | membership/etcd/etcd.go:48-269 | for every interleaving of snapshots and batches, every delta is well formed and the folded view is always members joined with heartbeats if and only if every config batch is clean when it arrives |
| `KvClient.NatsRunExact` | membership/natsjet/subscribe.go:20-219 | the NATS client, which handles one entry at a time, is in sync over every interleaving, with no condition |
| `KvClient.BatchLosesMember` | membership/etcd/etcd.go:194-233 | a delete and a put of the same key in one etcd batch leave the member in the client and out of the consumer |
| `KvStore.AliveBatchAt` | membership/etcd/etcd.go:235-269 | after any batch a key is alive if and only if the last event naming it is a heartbeat, or none names it and it was alive; members stay |
| `KvStore.ConfigBatchAt` | membership/etcd/etcd.go:194-233 | after any batch a record is what the last parsable event about it wrote, and unchanged if there is none; the alive set stays |
| `KvStore.DecodedAt` | membership/natsjet/subscribe.go:20-81 | a listing is decoded to its last parsable entry for every address |
| `KvStore.StoreFollowed` | membership/etcd/etcd.go:48-269 | over every interleaving of listings and watch events, the client holds exactly what the two buckets hold |
| `KvStore.DirectoryExact` | node.go:28-177 | from the two buckets to the node cache: a bucket of the cache lists exactly the visible members that are available in the configuration and have a heartbeat |
| `KvStore.RemovedRecords` | membership/etcd/etcd.go:48-97 | the removals of a listing are exactly the vanished records, unavailable except that etcd reports them as last shown |
| `KvStore.DeletedRecord` | membership/etcd/etcd.go:194-233 | a delete event reports the deleted record as unavailable, and only if there was one |
| `Versioned.AdvanceKeeps` | membership/redis/script.go:16-37 | a table whose changed entries carry the new version keeps every copy true: entries at or below the copy's version have not changed since |
| `Versioned.PollExact` | membership/redis/script.go:41-71 | fetching only newer entries (at version 0 only live ones) makes the copy equal to the live table if and only if no item of the copy has become a tombstone that a fetch from version 0 omits |
| `Redis.RedisStore.UpdateMember` | membership/redis/script.go:16-37 | the update script as one step on version and table, with its publication |
| `Redis.RedisStore.GetMembers` | membership/redis/script.go:41-71 | the fetch script returns the server version and exactly the newer records, at version 0 exactly the live ones |
| `Redis.RedisStore.BeatOnce` | membership/redis/script.go:75-99 | the heartbeat script, with its defect: a beat for a dead record truncates the record |
| `Redis.RedisStore.GetAlives` | membership/redis/script.go:103-135 | the heartbeat fetch script; truncated records are skipped |
| `Redis.RedisStore.CheckTimeouts` | membership/redis/script.go:140-168 | the timeout scan, in any hash order, marks exactly the overdue records dead under one shared new version, which is stored only if there is one |
| `Redis.ScanCovers` | membership/redis/script.go:149-163 | the loop over the hash in any order equals the order-free transition |
| `Redis.RedisClient.OnMembers` | membership/redis/subscribe.go:55-113 | the client takes a reply: version, member map and delta |
| `Redis.RedisClient.OnAlives` | membership/redis/subscribe.go:11-53 | the client takes a heartbeat reply: version, alive set and updates |
| `Redis.RedisClient.ResetVersions` | membership/redis/subscribe.go:156-163 | recovery sets both versions to 0 and keeps the maps |
| `RedisSync.InsertAdvances` | membership/redis/admin.go:10-16 | adding or updating a member moves the table as the protocol needs |
| `RedisSync.RemoveAdvances` | membership/redis/admin.go:18-23 | removing a member leaves a tombstone under a new version; removing an absent one only raises the version |
| `RedisSync.HeartbeatAdvances` | membership/redis/admin.go:25-30 | a heartbeat moves the alive table as the protocol needs, truncation included |
| `RedisSync.CheckTimeoutAdvances` | membership/redis/admin.go:32-37 | a timeout scan that kills many nodes under one version moves the alive table as the protocol needs |
| `RedisSync.MembersPolled` | membership/redis/subscribe.go:55-113 | one poll through script and client, in any hash order, is exactly the abstract poll |
| `RedisSync.AlivesPolled` | membership/redis/subscribe.go:11-53 | one heartbeat poll through script and client is exactly the abstract poll |
| `RedisSync.MemberPollExact` | membership/redis/subscribe.go:55-113 | after a poll the client's members equal the server's live parsable members if and only if no member was tombstoned while the client stood at version 0 |
| `RedisSync.AlivePollExact` | membership/redis/subscribe.go:11-53 | after a poll the client's alive set equals the server's not-dead nodes if and only if no death is missed, through a reset or a truncated record |
| `RedisSync.MembersRunExact` | membership/redis/script.go:16-71 | for every interleaving of updates, removals, heartbeats, scans, resets and polls: all member polls are exact if and only if none misses a removal |
| `RedisSync.AlivesRunExact` | membership/redis/script.go:75-168 | for every interleaving: all heartbeat polls are exact if and only if none misses a death |
| `RedisSync.MembersWithoutReset` | membership/redis/subscribe.go:55-113 | a client that starts empty at version 0 and never resets is exact after every member poll of every run |
| `RedisSync.AlivesWithoutReset` | membership/redis/subscribe.go:11-53 | without resets and without heartbeats for dead nodes, every heartbeat poll of every run is exact |
| `RedisSync.LiveMembersComplete` | membership/membership.go:32-42 | the parsable live members are all live members if and only if none of them is a harbor or has a zero cluster or type |
| `RedisSync.HarborMemberLost` | membership/membership.go:32-42 | a harbor that was just added is not among them |
| `RedisSync.ResetLosesRemoval` | membership/redis/subscribe.go:156-163 | from any synced state in which the client has a member, reset, removal of it and poll leave the client wrong |
| `RedisSync.RecoveryKeepsRemovedMember` | membership/redis/subscribe.go:156-163 | a complete run from the empty system in which recovery keeps a removed member |
| `RedisSync.BeatLosesDeath` | membership/redis/script.go:97-97 | from any synced state in which the client has a node alive, its timeout, a heartbeat and a poll leave the client believing it alive |
| `RedisSync.DeadBeatHidesDeath` | membership/redis/script.go:97-97 | a complete run from the empty system in which a heartbeat for a dead node hides its death |
| `RedisSync.MembersDelta` | membership/redis/subscribe.go:69-111 | the delta of a member poll is well formed and takes the old join to the new one |
| `RedisSync.AlivesDelta` | membership/redis/subscribe.go:25-51 | the updates of a heartbeat poll name known members and take the old join to the new one |
| `RedisSync.RunInSync` | membership/redis/subscribe.go:11-113 | over every run, resets and truncated records included, the consumer gets only well-formed deltas and its view is always the client's members joined with its heartbeats |
| `RedisSync.RunStoreOk` | membership/redis/script.go:16-168 | over every run the tables carry versions between 1 and the server version, and none at version 0 |
| `RedisSync.RecoveryExact` | membership/redis/subscribe.go:156-163 | whatever a client holds, forgetting its versions and polling twice brings in exactly every live record and node and takes nothing away |
| `RedisSync.TombstoneRecord` | membership/redis/subscribe.go:55-105 | a tombstone reports the deleted record as it was last shown, and only to a client that has it |
| `RedisHistory.TimeoutExact` | membership/redis/script.go:149-163 | a scan marks a live node dead, under a new version, exactly when the clock has passed its deadline |
| `RedisHistory.TimeoutSpares` | membership/redis/script.go:149-163 | a scan leaves dead, truncated and unknown nodes as they are |
| `RedisHistory.BeatThenSilence` | membership/redis/script.go:75-168 | after a heartbeat with a deadline and any steps without another one, the node is alive if and only if no scan among them came after the deadline |
| `RedisHistory.BeatsOfTheDead` | membership/redis/script.go:81-98 | a heartbeat of a dead node leaves it dead to everyone and truncates its record; the next one revives it |
| `RedisHistory.NeverBeaten` | membership/redis/script.go:75-99 | a node that never sent a heartbeat is not alive |
| `RedisHistory.UpdateLasts` | membership/redis/script.go:16-37 | after an update and any steps about other members the store has exactly the record written, live if its address parses |
| `RedisHistory.RemovalLasts` | membership/redis/script.go:29-36 | after a removal and any steps about other members the member is not live |
| `RedisHistory.LiveMemberByHistory` | membership/redis/script.go:16-37 | over every run a record is live if and only if it was the last one written for its address and the address parses |
| `RedisHistory.LiveNodeByHistory` | membership/redis/script.go:75-168 | over every run the order of heartbeats and scans alone decides which nodes are dead and which are alive |
| `NodeCache.FirstIndex` | node.go:58-68 | the position the removal loop stops at: the first match, or the length |
| `NodeCache.SwapRemoveExact` | node.go:58-68 | in-place removal by swapping with the last element removes exactly the element and keeps the array free of duplicates |
| `NodeCache.NodeCacheObject.AddToIndex` | node.go:50-76 | adding to the per-type or per-cluster array |
| `NodeCache.NodeCacheObject.RemoveFromIndex` | node.go:58-88 | removing from the per-type or per-cluster array |
| `NodeCache.NodeCacheObject.Swap` | node.go:60-67 | the search and swap loop |
| `NodeCache.NodeCacheObject.AddNodes` | node.go:100-117 | the loop over added members |
| `NodeCache.NodeCacheObject.RemoveNodes` | node.go:119-138 | the loop over removed members: goes on, stops the node, or panics |
| `NodeCache.NodeCacheObject.UpdateNodes` | node.go:140-176 | the loop over updated members: goes on, stops the node, or panics |
| `NodeCache.NodeCacheObject.OnNodeInfoUpdate` | node.go:90-177 | one delta applied to the cache |
| `NodeCache.AddOneExact` | node.go:100-117 | adding an absent member keeps index and node map coherent and mirrors the new view |
| `NodeCache.RemoveOneExact` | node.go:119-138 | removing a present member mirrors the new view if and only if the removal names it with the visibility it had and it is not the local node; it panics exactly when an invisible member is removed as visible; otherwise the cache stays coherent |
| `NodeCache.UpdateOneExact` | node.go:140-176 | updating a present member mirrors the new view if and only if visibility is unchanged and the local node keeps its net address; it panics exactly when an invisible member becomes visible |
| `NodeCache.OnUpdateExact` | node.go:90-177 | a well-formed delta is tracked record by record, without panic or stop, if and only if each removal and update is seen just as the record it replaces and the local node is neither removed nor re-addressed; then the index stays coherent |
| `NodeCache.OnUpdateConforming` | node.go:90-177 | with the export flag constant per address, a well-formed delta never panics, keeps the index coherent, stops the node exactly when it removes or re-addresses the local node, and otherwise mirrors the delta applied to the view |
| `NodeCache.BucketIsView` | node.go:28-36 | each per-type array holds, once each, exactly the available visible normal nodes of that type, and each per-cluster array exactly the available visible harbors |
| `NodeCache.LateExportCrashes` | node.go:140-176 | an update that turns on the export flag of a member of another cluster panics |
| `NodeCache.VisibleExact` | node.go:100-103 | who sees a member: its own cluster; everybody if exported; and a harbor every harbor |
| `Feed.FollowExact` | node.go:90-177 | for every sequence of well-formed deltas the cache tracks all of them if and only if all are steady in that sense, and then mirrors the folded view |
| `Directory.EmittedFold` | membership/redis/subscribe.go:11-113 | the deltas of every run of the Redis protocol are well formed and fold to the client's join |
| `Directory.CacheExact` | node.go:90-177 | for every run of the Redis protocol, the cache tracks every record of every delta if and only if the deltas are steady, and then mirrors the client's join |
| `Directory.CacheFollows` | node.go:90-177 | over every run with fixed export flags, the cache never panics and mirrors the client's join until it stops the node |
| `Directory.LawfulRunSteady` | membership/redis/script.go:16-37 | when export flags are fixed and no step removes or re-addresses the local node, every delta of the run is steady |
| `Directory.DirectoryExact` | node.go:28-177 | after any run that missed nothing, emitted steady deltas and ends with both polls, every array of the cache lists, once each, exactly the visible live available members with a live heartbeat on the server |
| `Directory.ListedByHistory` | node.go:28-177 | over every run that missed nothing, told from its history: a member is listed if and only if its last write made it available and visible, its last heartbeat did not follow a death, and no scan since came after the deadline |
| `KvDirectory.CacheExact` | node.go:90-177 | for every run of the etcd or NATS client with clean batches, the cache tracks every record if and only if the deltas are steady |
| `KvDirectory.DirectoryExact` | membership/etcd/etcd.go:48-269 | after any clean run with steady deltas, every array of the cache lists, once each, exactly the visible available members with a heartbeat |
| `KvDirectory.NatsDirectoryExact` | membership/natsjet/subscribe.go:20-219 | the same for NATS with no condition on batches |
| `Routing.HopDescends` | cluster.go:191-208 | every next hop is strictly closer to the target by a rank on current and target address, for any cache that satisfies the index invariant |
| `Routing.RanksDescend` | cluster.go:191-208 | along a journey through arbitrary, mutually inconsistent caches the rank drops at every hop |
| `Routing.JourneyBounded` | cluster.go:191-208 | a journey takes at most three hops, never visits an address twice, and if it takes as many hops as the rank of its start it ends at the target |
| `Routing.RelayDescends` | node.go:267-282 | relaying, including the error response a relay sends back for an undeliverable request, strictly uses up a budget, and only a two-way request is answered |
| `Routing.NextHopExact` | cluster.go:191-208 | there is a next hop if and only if the target is known in the own cluster, or the cluster to go through has an available harbor; it is then the target or such a harbor |
| `Routing.HarborsSpread` | node.go:179-187 | two targets go through the same harbor of a cluster if and only if their addresses agree modulo the number of harbors |
| `Routing.RouteExact` | cluster.go:191-208 | with arbitrary caches on the way, a message reaches its target within its rank in hops if and only if every node it visits is served |
| `Routing.ThreeHopsReach` | cluster.go:191-208 | three hops are enough for any two nodes |
| `Routing.RelayExact` | node.go:267-282 | a relay forwards when it is served, answers a two-way request it cannot forward if it can reach the sender, and drops the message exactly in the remaining cases |
| `Peer.Node.OnEstablish` | node.go:307-345 | establishing sets the socket, hands over the queued messages that have not failed, in order, and empties the queue |
| `Peer.Node.RemoveFailedMsg` | node.go:348-373 | the purge keeps the survivors in order |
| `Peer.Node.SendMessage` | node.go:465-533 | sending: to the socket, which may refuse, to the queue with a dial for the first entry, or refused when the queue is full after a purge |
| `Peer.Node.OnDialError` | node.go:375-386 | a failed dial purges and schedules a retry when something is still queued |
| `Peer.Node.OnDialOk` | node.go:388-397 | a finished dial establishes only when there is no socket |
| `Peer.Node.OnNewConnection` | cluster.go:536-556 | an incoming connection is refused when there is a socket or when the smaller side is dialing |
| `Peer.RemoveZeroIrrelevant` | node.go:355-367 | the purge flag for messages without deadline changes nothing, because a zero deadline already counts as passed |
| `Peer.StepInv` | node.go:307-425 | every event keeps: a live socket means an empty queue, the queue is within its limit, a non-empty queue of a running node has a dial or a retry; establishing never overwrites a socket |
| `Peer.StepConserves` | node.go:331-373 | every event keeps the accounting of messages: accepted equals queued plus handed over plus dropped, as multisets, and handed over plus queued is in the order of acceptance |
| `Peer.StepDropsFailed` | node.go:348-373 | a message is dropped only when its deadline passed or its context is done at that moment |
| `Peer.RunSafe` | node.go:307-549 | both hold over every run |
| `Peer.IdleSafe` | node.go:220-227 | both hold at the start |
| `Peer.EstablishExact` | node.go:331-344 | an established connection is handed a queued message, as often as it is queued, if and only if its context is not finished or, without a context, it has no deadline or one still to come; the rest is dropped |
| `Peer.NothingElseHanded` | node.go:307-345 | no other step hands anything to a socket, except a send on an open connection |
| `Peer.PurgeExact` | node.go:348-373 | the purge keeps a message if and only if its context is not finished or, without a context, it has a deadline that has not passed |
| `Peer.DialFailsExact` | node.go:375-386 | a failed dial purges the queue unless there is a connection, and schedules a retry exactly when something is left |
| `Peer.SendExact` | node.go:465-533 | each result of a send, with the exact condition for it and the queue, dials and effects it comes with |
| `Peer.QuietExact` | node.go:399-425 | retries, closed sockets, a stop and abandoned dials move no message and change one thing each |
| `TwoNode.Verdict` | cluster.go:536-556 | the larger side never refuses a dial of the smaller, and a dial that meets an accepted connection is refused: crossing dials are never both accepted nor both refused |
| `TwoNode.AnsweredReportKeeps` | node.go:388-397 | when the dialer of an accepted connection hears the answer it has no socket, so the established connection is the accepted one |
| `TwoNode.MoveKeeps` | node.go:465-502 | every move of either side or of the network keeps the invariant of the two-node protocol |
| `TwoNode.RunKeeps` | node.go:388-502 | the invariant holds over every run with both sides free to dial at any moment |
| `TwoNode.RunsAgree` | cluster.go:536-556 | over every run in which no full-queue purge empties the smaller side's queue, the two ends never hold different connections |
| `TwoNode.WaitingMeansDialing` | node.go:399-425 | over those runs a side with queued messages has a dial in flight or a retry scheduled |
| `TwoNode.SendSafeExact` | node.go:465-502 | in every state of the protocol, a send on the smaller side is safe for every continuation if and only if it does not purge a full queue to empty while no connection has been accepted or the larger side is dialing or will dial again |
| `TwoNode.PurgeLeadsApart` | node.go:465-502 | after such a purge there are moves that leave the two ends with different connections |
| `TwoNode.SettledRun` | node.go:388-397 | once the larger side holds a connection and is done dialing, no run, purges included, leaves the ends with different connections |
| `TwoNode.PurgeHappens` | node.go:361-361 | for every queue limit such a purge is reachable from the start before any connection is accepted, because a zero deadline counts as passed |
| `TwoNode.LatePurgeHappens` | cluster.go:536-556 | and also after the larger side accepted a connection the smaller has not been told of |
| `TwoNode.FlightsGoOn` | node.go:375-425 | over every ordinary run each dial under way can go on, and one that was answered finds its dialer without a connection |
| `TwoNode.FlightsEnd` | cluster.go:536-556 | arriving answers a dial or turns it away, a failure or a report ends it, no other move touches it |
| `AsyncCall.StepKeeps` | rpc/client.go:132-191 | every atomic step of caller, timer and response handler keeps the per-call invariant |
| `AsyncCall.RunKeeps` | rpc/client.go:132-191 | the invariant holds over every careful run |
| `AsyncCall.CallsExact` | rpc/client.go:32-55 | for every order of response, timer and send error: at most one callback, inbound interceptors exactly once when complete, a callback exactly when the response or the timer won, and always one if the send succeeded |
| `AsyncCall.ContextsExclusive` | rpc/client.go:162-188 | two calls that were given the same pooled context are never both using it, and a pooled context is held by neither |
| `AsyncCall.RecycleExact` | rpc/client.go:162-188 | giving a pooled context to a new call is safe for every continuation if and only if its previous call is past its own check of the fired flag |
| `AsyncCall.UnsafeRecycle` | rpc/client.go:162-188 | otherwise there are steps that run the inbound interceptors of the previous call twice |
| `AsyncCall.HazardArises` | rpc/client.go:51-55 | the unsafe situation is reachable: a timer can fire and pool the context while its call is still sending |
| `AsyncCall.NeverStuck` | rpc/client.go:132-191 | a call that is not complete always has a step it can take |
| `AsyncCall.StepSpends` | rpc/client.go:132-191 | each step of a call brings it closer to its end, which it reaches within thirteen steps, and steps of other calls do not touch it |
| `AsyncCall.PoolExact` | rpc/client.go:132-191 | a call that ends puts its context back exactly when its timer can no longer touch it |
| `SyncCall.ActKeeps` | rpc/client.go:240-281 | every step of a synchronous call keeps the invariant of its channel |
| `SyncCall.RunKeeps` | rpc/client.go:240-281 | the invariant holds over every run in which a failed send means no response |
| `SyncCall.ChannelsExact` | rpc/client.go:132-138 | over those runs every pooled channel is empty, no pending channel is pooled, delivering never blocks, and a caller receives only its own response |
| `SyncCall.LateFailureExact` | rpc/client.go:240-281 | a send that reports failure late is safe for every continuation if and only if the response has not been taken yet |
| `SyncCall.LateFailureLeadsAstray` | rpc/client.go:240-281 | otherwise there are steps that hand the old response to another call |
| `SyncCall.LateFailureArises` | rpc/client.go:240-281 | a run from the start reaches that case, with a channel that may fail after the request left |
| `SyncCall.ReceiveExact` | rpc/client.go:240-281 | whenever a caller can take a response, it takes the response to its own request |
| `SyncCall.WrittenReceivable` | rpc/client.go:240-281 | a response that was written stays receivable until the caller is done |
| `SyncCall.CallsEnd` | rpc/client.go:240-281 | over every run a call that is over has its own response, or was cancelled, or its send failed, and it has a response exactly when it received one |
| `SyncCall.NeverStuck` | rpc/client.go:240-281 | a call that is not over can go on, or waits for a response whose handler can go on |
| `SyncCall.PoolExact` | rpc/client.go:240-281 | when a call ends its channel goes back to the pool if and only if it is empty and no handler can still write to it |
| `Sequence.Generator.MakeSequence` | rpc/client.go:113-126 | one number from the stored timestamp and counter, under the lock |
| `Sequence.TickExact` | rpc/client.go:113-126 | a number is larger than the one before, however stale the caller's timestamp, if and only if the 32-bit counter does not wrap |
| `Sequence.RunIncreasingExact` | rpc/client.go:113-126 | the numbers of a whole run are strictly increasing, with stale timestamps, if and only if never more than 2^32 - 1 calls are made under one stored timestamp |
| `Sequence.LaterIsLarger` | rpc/client.go:113-126 | any later number is larger than any earlier one, so no two calls share a number |
| `Sequence.CounterExact` | rpc/client.go:113-126 | up to 2^32 - 1 the counter is the number of calls made under the stored timestamp |
| `Sequence.ExhaustionExact` | rpc/client.go:113-126 | the counter wraps somewhere in a run if and only if more than 2^32 - 1 calls fall under one stored timestamp |
| `Sequence.ShardInRangeExact` | rpc/client.go:128-130 | the signed remainder that picks the pending map is a valid index if and only if the timestamp is below 2^31 or the counter is a multiple of the number of maps |
| `Sequence.NegativeShard` | rpc/client.go:128-130 | the first number under the timestamp 2^31 gives the index -31 |
| `Sequence.IssuedExact` | rpc/client.go:113-126 | the upper half of a number is the newest timestamp so far, the lower half how many calls were served under it |
| `RpcServer.StepInv` | rpc/server.go:40-77 | every step of interceptors, method, panic handler and repliers keeps the invariant of each request |
| `RpcServer.RunSafe` | rpc/server.go:117-171 | over every run the pending-response counter is never negative, each request sends at most one response and oneway requests none, with panics and double replies |
| `RpcServer.StepExact` | rpc.go:140-148 | a step keeps the counter equal to the counted unanswered requests if and only if it is not an answer given before the counting interceptor ran on a request that is still counted |
| `RpcServer.RunExact` | rpc.go:140-148 | the counter is exact throughout a run if and only if no interceptor answers before the counting one and lets the request through |
| `RpcServer.LeakStays` | cluster.go:346-378 | a request answered too early keeps the counter above zero forever, which is what stopping waits on |
| `RpcServer.LeakArises` | rpc.go:140-148 | a run from the start leads there: an interceptor answers and lets the request through to the counting one |
| `RpcServer.StartExact` | rpc.go:135-148 | invariant and exactness hold at the start |
| `RpcServer.ReplyDelivers` | rpc/server.go:40-77 | the first reply wins, its hooks run once and one response goes out for a two-way request, none for a oneway one; later replies change nothing |
| `RpcServer.ReplyNeverStuck` | rpc/server.go:40-77 | over every run a reply under way can go on to its end |
| `RpcServer.RefusedNeverRuns` | rpc/server.go:117-171 | a request that is turned down at once or vetoed is never counted and never reaches its method |
| `Bytes.BigEndian16` | codec/buffer/buffer.go:30-35 | two bytes, most significant first |
| `Bytes.BigEndian32` | codec/buffer/buffer.go:37-42 | four bytes, most significant first |
| `Bytes.BigEndian64` | codec/buffer/buffer.go:44-49 | eight bytes, most significant first |
| `SendLoop.Sender.OnMessage` | socket/socket.go:278-290 | one round: encode, then write when the batch is large enough or nothing is queued |
| `SendLoop.Sender.OnDie` | socket/socket.go:259-277 | after closing: encode and write what is queued |
| `SendLoop.Sender.Flush` | socket/socket.go:240-250 | a write sends everything or a prefix and ends the loop |
| `SendLoop.StepKeeps` | socket/socket.go:252-292 | every step keeps: written plus buffered bytes are the encodings of the messages taken, and a running loop with an empty queue holds no bytes |
| `SendLoop.RunExact` | socket/socket.go:252-292 | every run with every batch size: messages are encoded in order, the wire holds a prefix of their encodings, and with an empty queue all of it |
| `SendLoop.DrainDelivers` | socket/socket.go:259-277 | if no write fails after the socket was closed, everything queued is still sent |
| `SendLoop.BatchExact` | socket/socket.go:278-290 | a round of the loop writes everything it holds when that reaches the batch size or nothing more is queued, and otherwise nothing |
| `Frames.FrameReader.Compact` | socket/socket.go:328-338 | moving the window to the front of the buffer in place changes none of its bytes |
| `Frames.FrameReader.Grow` | socket/socket.go:324-333 | moving the window to a buffer of the frame's size changes none of its bytes |
| `Frames.FrameReader.Take` | socket/socket.go:314-322 | taking a frame out of the window: the window was that frame followed by the new window |
| `Frames.FrameReader.Fill` | socket/socket.go:339-348 | a read is only made with free space and appends its bytes to the window |
| `Frames.FrameReader.Unpack` | socket/socket.go:306-338 | a payload, an error that names what is in the header, or an incomplete frame and free space |
| `Frames.FrameReader.Recv` | socket/socket.go:304-350 | one payload within the limits or an error; window plus unread bytes is the frame plus window plus unread bytes: nothing lost, duplicated or reordered |
| `Frames.ReceiveAll` | socket/socket.go:304-350 | repeated receiving splits the stream into the frames handed out and what is left |
| `Frames.FrameUnique` | socket/socket.go:304-350 | the first frame of a byte sequence is unique |
| `Frames.TakenIsPrefix` | socket/socket.go:304-350 | whatever was taken from a stream of frames is a prefix of its payloads and the rest is the stream of the others |
| `Frames.NeverRejected` | socket/socket.go:310-313 | a stream of admissible frames never looks empty or too large, wherever it is cut |
| `Frames.ReceiveExact` | socket/socket.go:304-350 | for every list of payloads, every chunking and every buffer size: a prefix of the payloads in order, stopping only for a failed read; all of them when reads keep coming |
| `RpcCodec.BytesWriter.WriteBytes` | rpc/bytes.go:63-72 | appends the 16-bit length and at most 65536 bytes |
| `RpcCodec.BytesWriter.WriteMessage` | rpc/bytes.go:16-31 | leaves room for the length, appends the value, patches the length; a refused value reports failure |
| `RpcCodec.BytesReader.ReadBytes` | rpc/bytes.go:130-146 | reads a length-prefixed string or reports too few bytes |
| `RpcCodec.GetBytesExact` | rpc/bytes.go:63-72 | a length-prefixed string comes back if and only if it is shorter than 65536 bytes; at 65536 the length wraps to zero |
| `RpcCodec.GetBytesTrue` | rpc/bytes.go:130-146 | what was read, written again, is what was in the buffer |
| `RpcCodec.EncodeRequest` | rpc/rpc.go:82-111 | appends the request; on failure what was there is still a prefix; overlong user data is cut in the request itself |
| `RpcCodec.EncodeResponse` | rpc/rpc.go:144-175 | appends the response; on failure what was there is still a prefix; overlong user data is cut in the response itself |
| `RpcCodec.DecodeRequest` | rpc/rpc.go:116-141 | reads the fields in order or fails |
| `RpcCodec.DecodeResponse` | rpc/rpc.go:178-208 | reads the fields in order or fails; unknown error codes become no error |
| `RpcCodec.RequestExact` | rpc/rpc.go:82-141 | a request decodes to the same sequence number, flag, method, user data and argument if and only if each variable field is shorter than 65536 bytes |
| `RpcCodec.ResponseExact` | rpc/rpc.go:144-208 | a response decodes to the same fields if and only if each variable field is shorter than 65536 bytes and its error code is one of the seven defined |
| `RpcCodec.ErrorCodesExact` | rpc/rpc.go:21-47 | codes 1 to 7 make an error with that code and text, every other code makes none |
| `RpcCodec.RequestLayout` | rpc/rpc.go:82-111 | the bytes of a request, field by field, and their number |
| `RpcCodec.ResponseLayout` | rpc/rpc.go:144-175 | the bytes of a response, field by field, and their number |
| `RpcCodec.ParseRequestExact` | rpc/rpc.go:116-141 | a byte string decodes to a request if and only if it spells that request, with any bytes behind it and any flag byte but 1 for a two-way one |
| `RpcCodec.ParseResponseExact` | rpc/rpc.go:178-208 | a byte string decodes to a response if and only if it spells that response, with any bytes behind it and unknown codes as no error |
| `SsCodec.AppendHeader` | codec/ss/codec.go:38-46 | length placeholder, flag, target and sender |
| `SsCodec.FinalizeFrame` | codec/ss/codec.go:50-57 | patches the length, or rolls an oversized frame back |
| `SsCodec.EncodeMessage` | codec/ss/codec.go:59-107 | appends exactly the frame of the message, or leaves the buffer as it was when the message is empty, unknown, refused or over the limit; overlong user data is cut in the message itself |
| `SsCodec.TrimmedSame` | codec/ss/codec.go:59-107 | a message encoded a second time gives the same bytes |
| `SsCodec.Encode` | codec/ss/codec.go:59-115 | the same for relayed frames and foreign values |
| `SsCodec.BufferReader.Reset` | codec/buffer/buffer.go:77-82 | an empty packet keeps the previous bytes |
| `SsCodec.BufferReader.GetUint32` | codec/buffer/buffer.go:149-158 | a short read gives zero and does not advance |
| `SsCodec.Codec.Decode` | codec/ss/codec.go:121-158 | deliver at the target, relay elsewhere, reject what does not parse |
| `SsCodec.SmallLimitSurvives` | codec/ss/codec.go:50-57 | under a packet limit of at most 65536 bytes, the default included, every 16-bit length is exact: what remains is a protobuf id below 65536 and a defined error code |
| `SsCodec.AdmittedExact` | codec/ss/codec.go:38-158 | for every packet limit, an admitted frame below 4 GB is accepted by a receiver with that limit, and decodes at its target to the same sender, type and fields if and only if everything written in 16 bits fits and an error code is defined |
| `SsCodec.WideIdMistaken` | codec/ss/codec.go:86-86 | a message with id 65537 reaches its target as the type with id 1 |
| `SsCodec.HopExact` | codec/ss/message.go:114-126 | decoding at a node that is not the target and encoding again reproduces the frame |
| `SsCodec.TripExact` | codec/ss/message.go:114-126 | over any number of relays the frame arrives byte for byte |
| `SsCodec.RelayRequestExact` | codec/ss/message.go:96-112 | a relay finds a request in a frame exactly when the target would decode one, and it is the same one |
| `SsCodec.EncodableExact` | codec/ss/codec.go:59-115 | which messages can be encoded at all |
| `SsCodec.LayoutExact` | codec/ss/codec.go:38-107 | the payload of a frame for each kind of message, with its type number |
| `SsCodec.AdmittedSize` | codec/ss/codec.go:50-57 | which messages fit a packet limit, in bytes |
| `SsCodec.DecodeExact` | codec/ss/codec.go:121-158 | every packet of at least nine bytes: passed on whole when it is for another node, refused when its type is none of 1 to 4 or the rest does not decode |
| `SsCodec.DecodeCmdExact` | codec/ss/codec.go:121-158 | bytes are always delivered with their command; a protobuf body if and only if its id is known and it is empty or parses |
| `Wire.EncodedIsStream` | socket/socket.go:252-292 | what the send loop writes for messages and relayed frames is the stream of frames of the admitted ones |
| `Wire.TransferExact` | socket/socket.go:252-350 | sender and receiver together: for every run of the send loop, every batch size, every chunking and every buffer, a prefix of the queued payloads in order, and all of them when the queue is empty and reads keep coming |
| `Wire.RelaySendable` | codec/ss/message.go:114-126 | a received frame can be relayed: it is within the next receiver's limits |
| `Wire.DecodedExact` | codec/ss/codec.go:121-158 | the queued items, own messages and frames passed on, decoded by the node at the other end: the admitted ones in order, with all fields at their target and as the very same frame elsewhere |
| `Wire.DeliveryExact` | socket/socket.go:252-350 | the whole path, queue to decoder, for every run of the send loop, batch size, chunking, buffer and packet limit: a prefix of what the receiving node should make of the items, in order, and all of it when the queue is empty and reads keep coming |
| `Diff.Walk` | example/membership/membership.go:325-358 | the two-index walk over address-sorted lists, with or without repeated addresses, adds and removes each address as often as one list has it more than the other, and reports exactly what changed where neither repeats it |
| `Diff.ArrangedExact` | example/membership/membership.go:321-323 | sorting gives a sorted list with every address as often, and the same record where it occurs once |
| `Diff.ParsedExact` | example/membership/membership.go:311-319 | records whose address does not parse are left out, the others kept |
| `Diff.Client.OnSnapshot` | example/membership/membership.go:308-361 | any packet is filtered, sorted and compared with the previous list, and replaces it; the kept list is always sorted and has the parsable records of the packet |
| `Diff.Disjoint` | example/membership/membership.go:325-358 | the three lists name pairwise different addresses, each once |
| `Diff.UnchangedSilent` | example/membership/membership.go:334-340 | a record with the same net address and availability is not reported |
| `Diff.StepAgrees` | example/membership/membership.go:325-361 | without repeated addresses the delta is well formed for the consumer and leaves it in agreement with the new list on address, net address and availability |
| `Diff.StepWellFormed` | example/membership/membership.go:325-361 | the delta is well formed if and only if the new list repeats no address |
| `Diff.RepeatedAddress` | example/membership/membership.go:356-356 | a first packet that repeats an address adds it twice |
| `Diff.StepExact` | example/membership/membership.go:335-338 | the consumer ends with exactly the new list if and only if no address changed its export flag alone |
| `Diff.ExportChangeLost` | example/membership/membership.go:335-338 | a snapshot that only changes an export flag is reported as no change |
| `Diff.RunAgrees` | example/membership/membership.go:308-361 | the agreement holds over any number of snapshots without repeated addresses |
| `Diff.RunExact` | example/membership/membership.go:308-361 | over every run all deltas are well formed if and only if no snapshot repeats an address |

## Left out

- TwoNode.RunsAgree: connections do not close during a run.
- AsyncCall, SyncCall, TwoNode, RpcServer and Routing are step functions on values, not classes: their subject is the interleaving of several threads or nodes, which one object's methods do not show.
- SsCodec.AdmittedExact: protobuf and value marshalling are given as bytes; that marshalling itself round-trips is not part of this model.
- Diff.Client.OnSnapshot: the library's sort is given by insertion; which of several records for one address comes first is not promised by either.
- Wire.DeliveryExact: payloads are below 4 GB, the most a 32-bit length can say.
- Payload slices that alias the receive buffer, pooled buffers and their reuse; byte strings are values here.
- TCP, TLS, dialers, timers, listeners and stream sessions; a dial result, a chunk of bytes or a clock value is an input.
- The handshake contents, AES and key padding; a handshake is a message that carries an address.
- Redis, etcd and NATS client libraries, publish/subscribe delivery and watcher restart; a poll or an event is an input.
- Lua string packing with the separator byte; table values are tuples, and the one defect of that packing is modelled as a truncated record.
- The test at node.go:317 of whether a packet came from the peer it should, which goes through the routing function.
- Early returns in sendMessage that leave the mutex locked when the queue is full; they are ordinary ends of a step, and nothing is claimed about later progress.
- A close callback of an old connection that clears a newer socket, and the order of Stop and Wait.
- Random choice of a node by type, handler maps, worker pools, loggers, generated code and the example servers.
