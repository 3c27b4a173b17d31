# Models and proofs for go-libp2p-stack

This project models the cores of go-libp2p-stack where a hard property depends on state, loops or
arithmetic, and proves those properties. Each core is its own module. Goroutines are interleaved steps,
clocks are integers that do not go back, scores are reals, byte strings are sequences of numbers below 256.

- **Kademlia lookup** (`QueryPeersets`, `Lookup`, `LookupEngine`). The lookup loop, its workers and its
  result channel are a state machine over the peers' states. The loop, the peer set and the result are also
  code on mutable objects that is proved to take the steps of the machine.
- **BlossomSub mesh** (`Bitmasks`, `PeerSelection`, `MeshCut`, `MeshHeartbeat`, `Router`, `RouterEngine`).
  What one heartbeat does to a mesh, the in-place rotation that keeps outbound peers, and prune backoffs
  over whole runs of the router.
- **RPC splitting** (`RpcSplit`). Everything `appendOrMergeRPC` adds is an item that is placed in the last
  RPC or starts a new one; the size of an RPC is an arbitrary function.
- **Provider records** (`Providers`, `ProviderManagers`). A write-through cache over a datastore, and a
  collection whose query may deliver stale values of records that were updated meanwhile.
- **Optimistic provide** (`OptimisticProvide`). Completions over a bounded channel, leases from a shared
  pool, and the close of the channel.
- **DHT messages** (`Varints`, `DhtCodec`, `DhtBuffers`, `WireFormat`). The protobuf wire format (base 128
  varints, little end first), marshalling from back to front, and unmarshalling with unknown fields and groups.
- **Multiaddrs** (`Multiaddrs`, `MultiaddrText`, `Transcoders`, `DnsResolution`). The byte and the text
  form, a registry with six concrete transcoders, encapsulation, and resolution of DNS components.
- **Bookkeeping with two representations** (`MessageCache`, `MessageCaches`, `Deliveries`,
  `DeliveryRecords`, `PairIndex`, `Promises`, `PeerIps`, `PeerEvents`). A window of history slots over
  recycled arrays, a map and a linked queue of delivery records, two-way indices, and a log of pending
  events with sleeping consumers.

Specifications are functions and relations on values; lemmas prove what they promise over all inputs or
all runs; classes and methods with loops, in the form the Go code has, are proved against them. A missing
result (`None`) stands for an error.

Where the code does less than its comments or its callers suggest, the model follows the code and gives
the exact condition:

- `appendOrMergeRPC` has no loop for IDONTWANT, so a split RPC loses it (`RpcSplit.DontWantsKept`).
- `getPeers` starts its intersection afresh while it is empty, so it is an intersection over all slices
  only under the condition of `PeerSelection.PoolRestarts` (`PeerSelection.PoolIsNotTheIntersection`).
- The Dscore best peers are safe when a mesh is cut if and only if Dscore is zero or Dscore + Dout <= D
  (`MeshCut.KeepsTopScoresExactly`).
- The backoff a PRUNE asks for is obeyed if and only if it is below 2^63 nanoseconds; otherwise it wraps, and
  2^63 seconds are none at all (`Router.PruneBackoffObeyed`, `Router.PruneBackoffLost`).
- `AddProtocol` does not check that VCode encodes the code (`Multiaddrs.AddProtocolSound`,
  `Multiaddrs.AnyVCodeIsTaken`).
- A message put again under the same id does not live longer (`MessageCache.AnyWindow`,
  `MessageCache.SecondPutIsLost`).
- The first deliverer of a message is kept from a duplicate credit only if it forwarded the message before the
  delivery, not if it sends it again afterwards (`Deliveries.ForwardersOfValid`, `Deliveries.DelivererIsCreditedToo`).
- `waitForRPCs` waits for ever if no RPC was issued (`OptimisticProvide.NoRpcBlocks`).

## Model

| member | source | states |
|---|---|---|
| `Lookup.LookupSafety` | go-libp2p-kad-dht/query.go:274-375 | In every state of every run, also after the loop has ended: no `updateState` panic has happened, no peer was queried twice, at most alpha peers are Waiting, they are exactly the running workers plus the unread results, every running worker finds room in the channel for its one send, and the next result to be read names a Waiting peer. |
| `Lookup.LookupEnds` | go-libp2p-kad-dht/query.go:274-318 | A run over a finite universe of peers has at most 2n + 4 states. |
| `Lookup.LookupProgress` | go-libp2p-kad-dht/query.go:274-375 | No reachable state is stuck: until the loop has ended and all workers have reported, the loop can read a result and take a turn, or a worker can send, without help from cancellation. |
| `Lookup.LookupOutcome` | go-libp2p-kad-dht/query.go:350-391 | When the lookup completed, the beta closest known peers that are not unreachable are all Queried; when it starved, every known peer is Queried or Unreachable. |
| `Lookup.SuccessIsSeen` | go-libp2p-kad-dht/query.go:379-391 | If no two peers are at the same distance, whoever asks again after completion or starvation finds one of the two conditions true. |
| `Lookup.NextKeepsInv` | go-libp2p-kad-dht/query.go:274-375 | Every turn of the loop, every worker report and every cancellation keeps the invariant, including the budget of at least one in every turn that goes on. |
| `Lookup.TurnKeepsInv` | go-libp2p-kad-dht/query.go:288-318 | One turn of the loop (read a result, decide, spawn a batch of at most alpha minus waiting workers) keeps the invariant. |
| `Lookup.TurnDecides` | go-libp2p-kad-dht/query.go:288-318 | What every turn decides: it stops exactly if the stop function says so, and otherwise starves exactly if nobody is Heard or Waiting; if neither, it completes if the beta closest peers have been queried however ties are broken, and only if they have been in some way of breaking them; a turn that ends starts nobody, and any other makes the closest Heard peers Waiting, as many as the budget allows, and changes nobody else. A cancelled turn only ends the lookup. |
| `Lookup.VerdictIsReasoned` | go-libp2p-kad-dht/query.go:350-360 | The three reasons of a turn, each with its exact condition. |
| `Lookup.CompletionIsExact` | go-libp2p-kad-dht/query.go:379-387 | If no two peers are at the same distance, completion is decided by the states alone. |
| `Lookup.BatchIsClosest` | go-libp2p-kad-dht/query.go:362-372 | The batch is the closest Heard peers and fills the budget if there are enough of them. |
| `Lookup.HearsayApplies` | go-libp2p-kad-dht/query.go:498-503 | An update that only tells of peers makes exactly the new ones known, as Heard, and never oneself. |
| `Lookup.SettleExactly` | go-libp2p-kad-dht/query.go:504-525 | Settling a peer that is not Waiting is the panic of `updateState`; oneself is passed over. |
| `Lookup.ReportKeepsInv` | go-libp2p-kad-dht/query.go:417-475 | A worker's report keeps the invariant. |
| `Lookup.TurnLowersRank` | go-libp2p-kad-dht/query.go:288-318 | Every turn lowers the measure: twice the peers that have not reported, plus the unread results. |
| `Lookup.ReportLowersRank` | go-libp2p-kad-dht/query.go:417-475 | Every worker report lowers the same measure. |
| `Lookup.WorkerUpdateApplies` | go-libp2p-kad-dht/query.go:477-526 | Applying a worker's result to a Waiting peer does not panic, moves exactly that peer to Queried or Unreachable and adds the new peers as Heard, never oneself. |
| `LookupEngine.Query.constructor` | go-libp2p-kad-dht/query.go:155-192 | A new query has seeds in its channel, no known peer and no worker, and is not terminated. |
| `LookupEngine.Query.UpdateState` | go-libp2p-kad-dht/query.go:477-526 | The three loops over heard, queried and unreachable peers compute exactly the state update that the lookup model uses. |
| `LookupEngine.Query.IsStarvationTermination` | go-libp2p-kad-dht/query.go:389-391 | True exactly if nobody is Heard and nobody is Waiting. |
| `LookupEngine.Query.IsLookupTermination` | go-libp2p-kad-dht/query.go:379-387 | True exactly if the beta closest peers that are not unreachable are all Queried. |
| `LookupEngine.Query.IsReadyToTerminate` | go-libp2p-kad-dht/query.go:350-375 | Returns the reason to end, with the exact condition of each, or the batch of the closest Heard peers cut at the budget by the count that is compared after it is incremented. |
| `LookupEngine.Query.Iterate` | go-libp2p-kad-dht/query.go:288-318 | One pass through the loop body is a turn of the model. |
| `LookupEngine.Query.SpawnAll` | go-libp2p-kad-dht/query.go:321-348 | Spawning marks exactly the batch as Waiting, running and asked. |
| `LookupEngine.Query.WorkerReports` | go-libp2p-kad-dht/query.go:417-475 | A worker that sends its result takes the report step of the model. |
| `LookupEngine.Query.Run` | go-libp2p-kad-dht/query.go:274-318 | The loop with its workers in any interleaving and cancellation at any time ends, in a state that satisfies the invariant and with a reason. |
| `LookupEngine.Query.ConstructLookupResult` | go-libp2p-kad-dht/query.go:221-263 | The result is the K closest known peers that are not unreachable in order of distance with their true states, the K closest of all, and completed exactly if one of the two successful conditions holds. If no two peers are at the same distance, a lookup that ended by completion or starvation is completed. |
| `LookupEngine.Query.RunQuery` | go-libp2p-kad-dht/query.go:155-192 | The loop followed by the result: it ends, the peers are the K closest, and a lookup that ended by completion or starvation is completed if no two peers are at the same distance. |
| `QueryPeersets.QueryPeerset.Find` | go-libp2p-kad-dht/qpeerset/qpeerset.go:70-77 | Finds the index of a peer, or -1 exactly if it is unknown. |
| `QueryPeersets.QueryPeerset.TryAdd` | go-libp2p-kad-dht/qpeerset/qpeerset.go:87-96 | Adds an unknown peer as Heard and changes nothing for a known one. |
| `QueryPeersets.QueryPeerset.Sort` | go-libp2p-kad-dht/qpeerset/qpeerset.go:98-104 | Sorts lazily by distance without changing the states. |
| `QueryPeersets.QueryPeerset.SetState` | go-libp2p-kad-dht/qpeerset/qpeerset.go:108-110 | Changes the state of one peer and of no other, and does not disturb the order. |
| `QueryPeersets.QueryPeerset.GetState` | go-libp2p-kad-dht/qpeerset/qpeerset.go:114-116 | Returns the state of a known peer. |
| `QueryPeersets.QueryPeerset.GetClosestNInStates` | go-libp2p-kad-dht/qpeerset/qpeerset.go:127-143 | Returns the n nearest peers in the given states, nearest first, or all of them if there are fewer, and leaves the states as they are. |
| `QueryPeersets.QueryPeerset.GetClosestInStates` | go-libp2p-kad-dht/qpeerset/qpeerset.go:147-149 | Returns all peers in the given states, nearest first. |
| `QueryPeersets.QueryPeerset.NumHeard` | go-libp2p-kad-dht/qpeerset/qpeerset.go:152-154 | Counts the Heard peers. |
| `QueryPeersets.QueryPeerset.NumWaiting` | go-libp2p-kad-dht/qpeerset/qpeerset.go:157-159 | Counts the Waiting peers. |
| `QueryPeersets.SelectPrefixIsClosest` | go-libp2p-kad-dht/qpeerset/qpeerset.go:127-143 | Filtering a list sorted by distance and cutting it gives the closest peers in the given states. |
| `QueryPeersets.ClosestAgree` | go-libp2p-kad-dht/qpeerset/qpeerset.go:127-143 | If no two peers are at the same distance, the closest peers are unique. |
| `MeshCut.ArrangePermutes` | go-libp2p-blossomsub/blossomsub.go:1682-1744 | The rearrangement of an oversubscribed mesh is a permutation. |
| `MeshCut.KeepsOutbound` | go-libp2p-blossomsub/blossomsub.go:1697-1737 | The kept peers hold at least Dout outbound ones, or all the outbound ones there are. |
| `MeshCut.CutIsMinimal` | go-libp2p-blossomsub/blossomsub.go:1697-1737 | With enough outbound peers the selection is left alone; otherwise it becomes outbound peers, no more than the quota, followed by the first inbound peers it had. |
| `MeshCut.KeepsTopScores` | go-libp2p-blossomsub/blossomsub.go:1691-1737 | If Dscore + Dout <= D, the Dscore best scoring peers all survive the cut. |
| `MeshCut.TopScoreCanBeCut` | go-libp2p-blossomsub/blossomsub.go:1691-1737 | If the two quotas do not fit in D, every mesh of more than D peers has an outbound set for which the Dscore-th best peer is cut. |
| `MeshCut.KeepsTopScoresExactly` | go-libp2p-blossomsub/blossomsub.go:1691-1737 | For every mesh of more than D peers, all outbound sets keep the Dscore best peers if and only if Dscore is zero or Dscore + Dout <= D. |
| `MeshCut.RotateInPlace` | go-libp2p-blossomsub/blossomsub.go:1707-1714 | The inner loop moves element i to the front and the elements before it one place on. |
| `MeshCut.ArrangeInPlace` | go-libp2p-blossomsub/blossomsub.go:1697-1737 | The two loops on the array compute the rearrangement. |
| `MeshHeartbeat.MaintainMesh` | go-libp2p-blossomsub/blossomsub.go:1637-1806 | One heartbeat on one mesh: exactly the members with negative score and, above Dhi, all but a good choice of D of the others are pruned and backed off; nobody is both grafted and pruned; everybody grafted had no backoff entry and is no direct peer; every member left has a non-negative score; there are at most Dhi + Dout + OpportunisticGraftPeers members; and below Dlo every candidate was taken. A mesh below Dlo is filled up to D or with all candidates; one that has then reached Dlo holds at least Dout outbound members, or every outbound candidate of the pool. |
| `MeshHeartbeat.ShortMeshHasEverybody` | go-libp2p-blossomsub/blossomsub.go:1664-1679 | A mesh that is still below Dlo has every available peer without backoff entry and with non-negative score that is no direct peer. |
| `MeshHeartbeat.QuotaHasEverybody` | go-libp2p-blossomsub/blossomsub.go:1746-1772 | A mesh that had enough members and is still short of outbound ones has every outbound peer that could have been grafted. |
| `MeshHeartbeat.DropNegative` | go-libp2p-blossomsub/blossomsub.go:1655-1662 | Exactly the members with negative score are pruned. |
| `MeshHeartbeat.FillUp` | go-libp2p-blossomsub/blossomsub.go:1664-1679 | Below Dlo, candidates without backoff entry and with non-negative score are grafted up to D. |
| `MeshHeartbeat.CutDown` | go-libp2p-blossomsub/blossomsub.go:1681-1744 | Above Dhi, a good choice of D members is kept and the others are pruned. |
| `MeshHeartbeat.AddOutbound` | go-libp2p-blossomsub/blossomsub.go:1746-1772 | With enough members but fewer than Dout outbound ones, outbound candidates are grafted up to Dout. |
| `MeshHeartbeat.Opportunistic` | go-libp2p-blossomsub/blossomsub.go:1774-1806 | If the cached score of the median member is below the threshold, better candidates are grafted, at most OpportunisticGraftPeers of them. |
| `MeshHeartbeat.OpportunisticTakesBetter` | go-libp2p-blossomsub/blossomsub.go:1791-1805 | Only peers that score above the median, are no members, have no backoff entry and are no direct peers are taken, and every available one of them if fewer than allowed are taken. |
| `MeshHeartbeat.MedianIsInTheMiddle` | go-libp2p-blossomsub/blossomsub.go:1783-1789 | More than half of the members score no more than the median, and at least half no less. |
| `PeerSelection.GetPeers` | go-libp2p-blossomsub/blossomsub.go:2165-2207 | Returns distinct peers that pass the filter: the whole pool of the slices, or `count` of it if count is positive and the pool is larger. |
| `PeerSelection.PoolRestarts` | go-libp2p-blossomsub/blossomsub.go:2165-2207 | For every list of slices: the pool is empty if a slice has no subscribers, and otherwise the intersection from the first slice with an eligible peer on. It is the intersection over all slices if and only if a slice has no subscribers, no slice has an eligible peer, that first slice is slice 0, or nobody is eligible for all slices from it on. |
| `PeerSelection.PoolIsNotTheIntersection` | go-libp2p-blossomsub/blossomsub.go:2165-2207 | Two slices for which the pool holds a peer that is not eligible for both. |
| `PeerSelection.PoolOfSlice` | go-libp2p-blossomsub/blossomsub.go:2165-2207 | For a single slice the pool is exactly its eligible subscribers. |
| `PeerSelection.PoolFiltered` | go-libp2p-blossomsub/blossomsub.go:2165-2207 | Everybody in the pool passes the caller's filter and speaks the mesh protocol. |
| `PeerSelection.AvailableInPool` | go-libp2p-blossomsub/blossomsub.go:2165-2207 | Whoever subscribes to every slice, speaks the mesh protocol and passes the filters is in the pool. |
| `PeerSelection.NobodyPassedOver` | go-libp2p-blossomsub/blossomsub.go:2165-2207 | A selection that is not full, or has no limit, leaves no such peer out. |
| `Router.BackoffIsRespected` | go-libp2p-blossomsub/blossomsub.go:936-1109 | Over every run of grafts, prunes, joins, leaves, heartbeats, clearings and disconnects with a clock that does not go back: a peer with a recorded backoff is in no mesh of that bitmask before the backoff expires. |
| `Router.PruningIsRecorded` | go-libp2p-blossomsub/blossomsub.go:1034-1109 | A received PRUNE for a joined bitmask, leaving a bitmask and being pruned by the heartbeat each record a backoff of at least the due length and take the peer out of the mesh; for a PRUNE with a requested backoff, if that backoff is below 2^63 nanoseconds. |
| `Router.PruneBackoffObeyed` | go-libp2p-blossomsub/blossomsub.go:1050-1056 | The backoff a PRUNE asks for is obeyed if and only if it is below 2^63 nanoseconds, or an earlier entry already lasts that long. |
| `Router.PruneBackoffLost` | go-libp2p-blossomsub/blossomsub.go:1050-1056 | After a PRUNE that asks for 2^63 seconds a peer without an earlier entry can be grafted back at once. |
| `Router.SecondsExact` | go-libp2p-blossomsub/blossomsub.go:1053-1053 | The conversion of seconds to a duration is exact if and only if the product is below 2^63. |
| `Router.SecondsWrap` | go-libp2p-blossomsub/blossomsub.go:1053-1053 | Two inputs where it wraps: to a negative duration and to zero. |
| `Router.RunSafe` | go-libp2p-blossomsub/blossomsub.go:936-1109 | In every state of every run no mesh member has an unexpired backoff entry. |
| `Router.RunKeeps` | go-libp2p-blossomsub/blossomsub.go:1896-1915 | Between any two states of a run the clock does not go back and no unexpired backoff entry is lost or shortened. |
| `Router.StepSafe` | go-libp2p-blossomsub/blossomsub.go:936-1109 | Every event keeps both: no unexpired entry for a mesh member, and no unexpired entry lost. |
| `Router.GraftOneSafe` | go-libp2p-blossomsub/blossomsub.go:936-1032 | One GRAFT keeps the backoffs respected, although the backoff is compared with the clock reading taken at the start of the handler. |
| `Router.AddBackoffExact` | go-libp2p-blossomsub/blossomsub.go:1099-1109 | Recording a backoff moves one entry to the later of the two times and touches nothing else. |
| `Router.GraftDecides` | go-libp2p-blossomsub/blossomsub.go:943-1020 | A peer enters a mesh by a GRAFT if and only if the bitmask is joined, the filter allows it, it is no direct peer, has no backoff entry later than the start of the handler, has no negative score, and the mesh is below Dhi or it is outbound; nothing else in the meshes changes. |
| `Router.GraftReplies` | go-libp2p-blossomsub/blossomsub.go:943-1020 | A PRUNE goes back if and only if the bitmask is joined, the peer is not a member, the filter lets it through and it is not taken. |
| `Router.GraftRecords` | go-libp2p-blossomsub/blossomsub.go:964-1015 | A refusal records the prune backoff from now on, unless to a direct peer; nothing else is recorded. |
| `Router.GraftPenalises` | go-libp2p-blossomsub/blossomsub.go:943-1020 | The exact conditions for a penalty, for a second one and for losing peer exchange. |
| `Router.PruneOneSafe` | go-libp2p-blossomsub/blossomsub.go:1034-1069 | One PRUNE keeps the backoffs respected, for any number of seconds, including those that overflow. |
| `Router.PruneTakesOnlyTheSender` | go-libp2p-blossomsub/blossomsub.go:1037-1056 | A PRUNE takes its sender out of the mesh and nobody else, and touches one backoff entry. |
| `Router.ClearBackoffSafe` | go-libp2p-blossomsub/blossomsub.go:1896-1915 | Clearing drops only entries that expired more than the slack ago. |
| `Router.ClearBackoffExact` | go-libp2p-blossomsub/blossomsub.go:1902-1914 | Clearing deletes exactly the entries that expired more than two heartbeat intervals of 700 ms ago, keeps the times of the others and leaves no bitmask empty. |
| `Router.LeaveSafe` | go-libp2p-blossomsub/blossomsub.go:1341-1361 | Leaving a bitmask keeps the backoffs respected. |
| `Router.LeaveExactly` | go-libp2p-blossomsub/blossomsub.go:1341-1361 | Leaving takes one mesh away and backs off exactly its members, for the time of an unsubscription at least. |
| `Router.JoinSafe` | go-libp2p-blossomsub/blossomsub.go:1283-1339 | Joining takes no peer with a backoff entry into the mesh, from the fanout or from outside. |
| `Router.JoinMoves` | go-libp2p-blossomsub/blossomsub.go:1283-1339 | Joining moves the bitmask from the fanout to the mesh and changes nothing else. |
| `Router.JoinTakes` | go-libp2p-blossomsub/blossomsub.go:1292-1332 | Every fanout peer with a non-negative score and no backoff entry stays; others enter only with a non-negative score, without backoff entry and if they are no direct peers. |
| `Router.JoinHasEverybody` | go-libp2p-blossomsub/blossomsub.go:1304-1330 | A mesh below D after joining has everybody who could have been taken. |
| `Router.JoinIsBounded` | go-libp2p-blossomsub/blossomsub.go:1304-1330 | It has at most D members, unless all of them were in the fanout. |
| `Router.BeatSafe` | go-libp2p-blossomsub/blossomsub.go:1637-1806 | Maintaining one mesh keeps the backoffs respected. |
| `Router.Int64` | go-libp2p-blossomsub/blossomsub.go:1034-1069 | The wrapping of a 64-bit signed integer, as in the conversion of the requested backoff to a duration. |
| `RouterEngine.BlossomSubRouter.DoAddBackoff` | go-libp2p-blossomsub/blossomsub.go:1099-1109 | Records the later of the old and the new expiry for one peer and bitmask, and nothing else. |
| `RouterEngine.BlossomSubRouter.GraftOne` | go-libp2p-blossomsub/blossomsub.go:943-1020 | One GRAFT takes the sender into the mesh exactly if it is acceptable, answers with a PRUNE exactly if it is refused, changes no other member and no other mesh, and gives the peer exchange and the penalties of the step of the model. |
| `RouterEngine.BlossomSubRouter.HandleGraft` | go-libp2p-blossomsub/blossomsub.go:936-1032 | A whole message: the sender has entered exactly the named meshes for which it was acceptable before the message, has a backoff exactly where it was refused, and the PRUNEs to send are those refusals in order. |
| `RouterEngine.GraftMessageSafe` | go-libp2p-blossomsub/blossomsub.go:936-1032 | A whole GRAFT message keeps the backoffs respected, however late each GRAFT is handled. |
| `RouterEngine.GraftMessageDecides` | go-libp2p-blossomsub/blossomsub.go:936-1032 | Every bitmask of a GRAFT message is decided by the state before it, whatever the order of its GRAFTs and however often it is named. |
| `RouterEngine.ExchangeDecides` | go-libp2p-blossomsub/blossomsub.go:936-1032 | Peer exchange is offered only if no GRAFT of the message offends, and then is if no bitmask is named twice. |
| `RouterEngine.ExchangeIsEarned` | go-libp2p-blossomsub/blossomsub.go:936-1032 | Over a whole GRAFT message a refused peer is offered other peers only if it was not penalised, is no direct peer and has no negative score; each refusal costs at most two penalties. |
| `RouterEngine.BlossomSubRouter.HandlePrune` | go-libp2p-blossomsub/blossomsub.go:1034-1069 | All PRUNEs of a message, in order; the offers of other peers that are followed are those for joined bitmasks, and none if the score is below the threshold. |
| `RouterEngine.Offers` | go-libp2p-blossomsub/blossomsub.go:1037-1067 | The followed offers are exactly the non-empty ones of prunes for joined bitmasks. |
| `RouterEngine.PruneMessageSafe` | go-libp2p-blossomsub/blossomsub.go:1034-1069 | A whole PRUNE message keeps the backoffs respected. |
| `RouterEngine.PruneMessageDecides` | go-libp2p-blossomsub/blossomsub.go:1034-1069 | A PRUNE message takes its sender out of exactly the joined meshes it names, records there at least every backoff it asks for, and touches nobody else. |
| `RouterEngine.BlossomSubRouter.Join` | go-libp2p-blossomsub/blossomsub.go:1283-1339 | Joining keeps the welcome fanout peers, fills up to D with candidates and drops the fanout entry and its publishing time. |
| `RouterEngine.BlossomSubRouter.Leave` | go-libp2p-blossomsub/blossomsub.go:1341-1361 | Leaving removes the mesh and backs off every former member by the unsubscribe interval. |
| `RouterEngine.BlossomSubRouter.RemovePeer` | go-libp2p-blossomsub/blossomsub.go:691-696 | The walks over meshes and fanout take out the disconnected peer everywhere and nobody else anywhere. |
| `RouterEngine.BlossomSubRouter.ClearBackoff` | go-libp2p-blossomsub/blossomsub.go:1896-1915 | Every fifteenth tick the nested walk deletes exactly the entries that expired more than two heartbeat intervals ago, leaves the others as they are, and leaves no bitmask without entries. |
| `RouterEngine.BlossomSubRouter.BeatOne` | go-libp2p-blossomsub/blossomsub.go:1637-1806 | The mesh of one bitmask is read, maintained and written back as the model's step. |
| `RouterEngine.BlossomSubRouter.Heartbeat` | go-libp2p-blossomsub/blossomsub.go:1601-1861 | Every joined mesh is maintained exactly once with one score per peer; the graft and prune lists record exactly what was done and never name the same peer and bitmask in both; no peer exchange goes to exactly those pruned with a negative score; fanout is dropped exactly for bitmasks last published to longer ago than its time to live, and all other fanout is maintained; backoffs stay respected. |
| `RouterEngine.BlossomSubRouter.ExpireFanout` | go-libp2p-blossomsub/blossomsub.go:1820-1827 | Fanout and publishing time go together, exactly for the bitmasks that are too old. |
| `RouterEngine.BlossomSubRouter.MaintainFanout` | go-libp2p-blossomsub/blossomsub.go:1830-1853 | The fanout peers that still subscribe and score well enough stay; below D they are filled up with candidates. |
| `RouterEngine.FanoutIsGood` | go-libp2p-blossomsub/blossomsub.go:1829-1853 | After maintenance no fanout peer is below the publish threshold, and there are at most D, unless none was added. |
| `RouterEngine.FanoutTakes` | go-libp2p-blossomsub/blossomsub.go:1829-1853 | Every fanout peer that still subscribes and scores well enough stays; below D, everybody available who scores well enough is taken. |
| `RouterEngine.NeverBoth` | go-libp2p-blossomsub/blossomsub.go:1637-1653 | No heartbeat both grafts and prunes the same peer on the same bitmask. |
| `RpcSplit.MergeConserves` | go-libp2p-blossomsub/blossomsub.go:1449-1573 | For every size function, limit, slice and elements: nothing nil is touched, and every published message, subscription, GRAFT, PRUNE, IWANT id and (bitmask, id) IHAVE pair comes out once and in order; only IWANT ids can change places, and only if the RPC that is extended already has several IWANT lists. |
| `RpcSplit.MergeShapes` | go-libp2p-blossomsub/blossomsub.go:1449-1573 | On the slow path only the last RPC of the slice is touched, every RPC that was extended or started is within the limit or has at most one indivisible item, and a new RPC is started only for an item that did not fit into the one before it. |
| `RpcSplit.SplitFits` | go-libp2p-blossomsub/blossomsub.go:1449-1573 | Splitting one RPC from nothing gives only RPCs that are within the limit or indivisible, all with its sender. |
| `RpcSplit.ItemsFill` | go-libp2p-blossomsub/blossomsub.go:1467-1570 | Adding the items of an RPC one by one never meets a nil Control, a missing IWANT or a missing IHAVE. |
| `RpcSplit.DontWantsKept` | go-libp2p-blossomsub/blossomsub.go:1449-1573 | IDONTWANT lists are kept if and only if the fast path is taken or there are none. |
| `RpcSplit.DontWantLost` | go-libp2p-blossomsub/blossomsub.go:1449-1573 | An RPC at or above the limit loses its IDONTWANT. |
| `RpcSplit.AppendOrMergeRpc` | go-libp2p-blossomsub/blossomsub.go:1449-1573 | The loops compute the model's result. |
| `RpcSplit.AddMessages` | go-libp2p-blossomsub/blossomsub.go:1472-1479 | The loop over messages: append, and undo and start a new RPC if the size is above the limit. |
| `RpcSplit.AddSubscriptions` | go-libp2p-blossomsub/blossomsub.go:1482-1489 | The same for subscriptions. |
| `RpcSplit.AddControl` | go-libp2p-blossomsub/blossomsub.go:1492-1569 | The control part: the empty Control first, then GRAFTs, PRUNEs, IWANTs and IHAVEs. |
| `RpcSplit.AddWants` | go-libp2p-blossomsub/blossomsub.go:1520-1543 | All IWANT ids go into the one IWANT list of the last RPC. |
| `RpcSplit.AddHaves` | go-libp2p-blossomsub/blossomsub.go:1545-1568 | IHAVE ids go into the last IHAVE if it has the same bitmask, into a new one otherwise. |
| `Providers.CacheIsExact` | go-libp2p-kad-dht/providers/providers_manager.go:137-241 | Over every interleaving of adds, gets, evictions and collection steps, each cached provider set equals the datastore's records of that key. |
| `Providers.AddedIsReturned` | go-libp2p-kad-dht/providers/providers_manager.go:322-403 | A provider added at time t is returned by every get until t + validity; every get returns exactly the records of its key. |
| `Providers.LoadedAreValid` | go-libp2p-kad-dht/providers/providers_manager.go:331-403 | A get that is not served from the cache returns exactly the providers with a readable record not older than the validity, and deletes the other records of its key and no others. |
| `Providers.OnlyAddedAreReturned` | go-libp2p-kad-dht/providers/providers_manager.go:271-403 | In every run from an empty datastore, whoever is returned for a key was added for it before. |
| `Providers.VisitDeletes` | go-libp2p-kad-dht/providers/providers_manager.go:193-216 | A collection deletes a visited record if and only if it is not skipped and its delivered value is unreadable or was too old at the start. |
| `Providers.AddedStays` | go-libp2p-kad-dht/providers/providers_manager.go:161-235 | A record stays in the datastore until its validity is over, also if the collection holds a stale value of it. |
| `Providers.VisitedIsClean` | go-libp2p-kad-dht/providers/providers_manager.go:193-216 | Every record a collection visits is gone or was valid at the start of the collection, for the rest of it. |
| `Providers.StepKeeps` | go-libp2p-kad-dht/providers/providers_manager.go:137-241 | Every step keeps the invariant and every record that is still valid. |
| `Providers.AddKeeps` | go-libp2p-kad-dht/providers/providers_manager.go:271-278 | An add keeps cache, datastore and collection consistent. |
| `Providers.GetKeeps` | go-libp2p-kad-dht/providers/providers_manager.go:331-403 | A get keeps them consistent, loses no valid record, and returns exactly the records of the key. |
| `Providers.VisitKeeps` | go-libp2p-kad-dht/providers/providers_manager.go:193-216 | A collection step keeps them consistent and deletes no valid record. |
| `ProviderManagers.ProviderSet.SetVal` | go-libp2p-kad-dht/providers/provider_set.go:27-34 | The list and the map of a provider set stay in step: a new provider is appended once, a known one keeps its place. |
| `ProviderManagers.ProviderManager.AddProv` | go-libp2p-kad-dht/providers/providers_manager.go:271-288 | Adding takes the model's step: cached set, datastore and skip set. |
| `ProviderManagers.ProviderManager.LoadProviderSet` | go-libp2p-kad-dht/providers/providers_manager.go:350-403 | Loading deletes the expired and unreadable records of the key and returns exactly the others. |
| `ProviderManagers.ProviderManager.GetProvidersForKey` | go-libp2p-kad-dht/providers/providers_manager.go:322-347 | Getting takes the model's step and returns each provider once. |
| `ProviderManagers.ProviderManager.OnTimer` | go-libp2p-kad-dht/providers/providers_manager.go:218-235 | A collection starts with an empty cache and an empty skip set. |
| `ProviderManagers.ProviderManager.OnQueryResult` | go-libp2p-kad-dht/providers/providers_manager.go:193-216 | One record of the collection is skipped, kept or deleted. |
| `ProviderManagers.ProviderManager.OnQueryEnd` | go-libp2p-kad-dht/providers/providers_manager.go:180-192 | The collection ends. |
| `OptimisticProvide.ClosedOnceAfterTheLast` | go-libp2p-kad-dht/lookup_optim.go:259-313 | In every run no send and no close meets a closed channel, the channel is closed at most once and only when all completions were received and counted, and then no receive is pending. |
| `OptimisticProvide.FinishedRun` | go-libp2p-kad-dht/lookup_optim.go:259-313 | A run that cannot go on by itself has received exactly as many completions as there were RPCs and given back every lease; the channel is closed exactly if the threshold is below the number of RPCs. |
| `OptimisticProvide.QuorumIsCollected` | go-libp2p-kad-dht/lookup_optim.go:259-300 | In every run the waiter leaves its first loop with exactly min(threshold, rpcs) completions received there, and has one turn of the second loop for each other RPC. |
| `OptimisticProvide.RunsAreShort` | go-libp2p-kad-dht/lookup_optim.go:259-313 | No run takes more than 7n + 1 steps of its own for n RPCs. |
| `OptimisticProvide.SomebodyCanGoOn` | go-libp2p-kad-dht/lookup_optim.go:259-313 | With at least one RPC, as long as not everybody is finished somebody can go on, whatever the shared pool looks like. |
| `OptimisticProvide.NoRpcBlocks` | go-libp2p-kad-dht/lookup_optim.go:259-272 | Without any RPC the waiter never leaves its first loop. |
| `OptimisticProvide.NextMoves` | go-libp2p-kad-dht/lookup_optim.go:238-313 | Every step keeps the counts of completions, leases and closes right and comes nearer the end. |
| `OptimisticProvide.Play` | go-libp2p-kad-dht/lookup_optim.go:238-313 | Running the goroutines in any order ends with all completions counted, no lease held and no panic. |
| `DhtCodec.MessageBack` | go-libp2p-kad-dht/pb/dht.pb.go:514-740 | Unmarshalling what was marshalled gives back the message, negative int32 fields and unknown fields included, given a record codec that inverts. |
| `DhtCodec.PeerBack` | go-libp2p-kad-dht/pb/dht.pb.go:741-875 | The same for a peer. |
| `DhtCodec.NothingUnrecognized` | go-libp2p-kad-dht/pb/dht.pb.go:301-383 | Messages without unrecognized bytes meet the condition of the round trip. |
| `DhtCodec.FieldNumbers` | go-libp2p-kad-dht/pb/dht.pb.go:101-119 | The tags that are written carry the field numbers and wire types of the message definition. |
| `DhtCodec.MessageLength` | go-libp2p-kad-dht/pb/dht.pb.go:447-483 | Marshalling a message writes exactly Size bytes. |
| `DhtCodec.PeerLength` | go-libp2p-kad-dht/pb/dht.pb.go:485-506 | Marshalling a peer writes exactly Size bytes. |
| `DhtCodec.UnknownFields` | go-libp2p-kad-dht/pb/dht.pb.go:719-733 | Unknown fields are kept byte for byte. |
| `WireFormat.SkipsField` | go-libp2p-kad-dht/pb/dht.pb.go:876-953 | Every well-formed field is skipped as a whole: varints, fixed and length-delimited ones, and groups with all the fields they hold, at any depth. |
| `WireFormat.ForeignFieldsAreKept` | go-libp2p-kad-dht/pb/dht.pb.go:719-733 | A message keeps all fields with numbers it does not know, groups included, byte for byte. |
| `WireFormat.NotSkipped` | go-libp2p-kad-dht/pb/dht.pb.go:933-952 | A tag byte with an end of a group or an unused wire type cannot be skipped, nor a group that is not closed. |
| `WireFormat.ReadBytesExactly` | go-libp2p-kad-dht/pb/dht.pb.go:566-595 | A length-delimited value is read if and only if its length is not negative as an int and all of it is there. |
| `WireFormat.WrongWireType` | go-libp2p-kad-dht/pb/dht.pb.go:542-704 | A known field with another wire type is an error, in a peer and in a message. |
| `WireFormat.BadTags` | go-libp2p-kad-dht/pb/dht.pb.go:534-541 | A field number of zero and a stray end of a group are errors. |
| `WireFormat.RepeatedFields` | go-libp2p-kad-dht/pb/dht.pb.go:562-699 | A second key replaces the first, a record is merged into the one that is there, peers are added. |
| `WireFormat.MessageBytes` | go-libp2p-kad-dht/pb/dht.pb.go:316-383 | A message byte by byte: its tags, lengths and the order of its fields. |
| `WireFormat.PeerBytes` | go-libp2p-kad-dht/pb/dht.pb.go:400-434 | Two peers byte by byte. |
| `WireFormat.NegativeBytes` | go-libp2p-kad-dht/pb/dht.pb.go:377-381 | A kind of -1 takes ten bytes, as the 64-bit number it is extended to. |
| `Varints.EncodeSize` | go-libp2p-kad-dht/pb/dht.pb.go:508-510 | Every varint takes exactly sovDht bytes. |
| `Varints.TenBytes` | go-libp2p-kad-dht/pb/dht.pb.go:436-446 | A 64-bit number takes at most ten bytes. |
| `Varints.ReadOfEncode` | go-libp2p-kad-dht/pb/dht.pb.go:520-533 | Reading a varint gives back the number modulo the width of the variable, whatever follows. |
| `Varints.EncodeDigits` | go-libp2p-kad-dht/pb/dht.pb.go:436-446 | Byte i of a varint holds the digit of weight 128^i, and its top bit says that more follow. |
| `Varints.DigitsExactly` | go-libp2p-kad-dht/pb/dht.pb.go:520-533 | A varint ends with the first byte below 128, which has to come within the limit, and is the sum of its digits, also if it is longer than needed. |
| `Varints.ConversionsAreModular` | go-libp2p-kad-dht/pb/dht.pb.go:520-533 | The conversions between int32 and uint64 keep the value modulo 2^64 and 2^32. |
| `Varints.EncodeVarint` | go-libp2p-kad-dht/pb/dht.pb.go:436-446 | Writes the varint so that it ends at the offset and leaves the rest of the buffer as it is. |
| `Varints.ReadLoop` | go-libp2p-kad-dht/pb/dht.pb.go:520-533 | The reading loop with its shifts, its bitwise or, its overflow and its end-of-input errors computes the varint at the index. |
| `Varints.OrAdds` | go-libp2p-kad-dht/pb/dht.pb.go:520-533 | Or-ing the shifted digit into the value is adding it modulo the width, because the bits are disjoint, also where the shift cuts bits off. |
| `DhtBuffers.Size` | go-libp2p-kad-dht/pb/dht.pb.go:447-483 | The loops add up to the exact length of the marshalled message. |
| `DhtBuffers.SizeOfPeer` | go-libp2p-kad-dht/pb/dht.pb.go:485-506 | The same for a peer. |
| `DhtBuffers.MarshalPeerTo` | go-libp2p-kad-dht/pb/dht.pb.go:400-434 | A peer is written from back to front so that it ends at the given place; nothing behind is touched. |
| `DhtBuffers.MarshalTo` | go-libp2p-kad-dht/pb/dht.pb.go:316-383 | A message is written from back to front at the end of the buffer and takes exactly its size. |
| `DhtBuffers.Marshal` | go-libp2p-kad-dht/pb/dht.pb.go:301-309 | The buffer has the computed size and holds the marshalled message. |
| `DhtBuffers.SkipField` | go-libp2p-kad-dht/pb/dht.pb.go:876-953 | Skipping a field, groups included, computes its length or fails as the model does. |
| `DhtBuffers.ReadPeer` | go-libp2p-kad-dht/pb/dht.pb.go:741-875 | The reading loop of a peer computes the model's result, errors included. |
| `DhtBuffers.Unmarshal` | go-libp2p-kad-dht/pb/dht.pb.go:514-740 | The reading loop of a message computes the model's result, errors included. |
| `Multiaddrs.BytesRoundTrip` | go-multiaddr/multiaddr.go:45-100 | A list of valid components of registered protocols is what its bytes parse to if and only if it is not empty, has a path component at most at the end, and no protocol with a value has an empty one. |
| `Multiaddrs.ParsedIsExact` | go-multiaddr/codec.go:133-157 | Every accepted byte string is the concatenation of the bytes of its components, which are all valid, registered and non-empty where they need a value, with a path at most at the end. |
| `Multiaddrs.ReadComponentOf` | go-multiaddr/codec.go:70-131 | Reading a component from its bytes gives the component and consumes exactly its bytes, whatever follows. |
| `Multiaddrs.ReadComponentLocal` | go-multiaddr/codec.go:70-131 | A component that was read is read again from its own bytes with anything behind them. |
| `Multiaddrs.NewComponentOfValue` | go-multiaddr/component.go:246-281 | Rebuilding a valid component from its protocol and value gives the component. |
| `Multiaddrs.NewComponentValid` | go-multiaddr/component.go:246-281 | A new component is accepted exactly if the value has the right length and the transcoder accepts it. |
| `Multiaddrs.ValidShape` | go-multiaddr/component.go:286-342 | A valid component is its code, its length if it has one, and its value. |
| `Multiaddrs.ReadCodeIsEncode` | go-multiaddr/varint.go:18-28 | Only the shortest form of a code is read. |
| `Multiaddrs.ReadCodeOfEncode` | go-multiaddr/varint.go:11-28 | A written code is read back, whatever follows. |
| `Multiaddrs.AddProtocolSound` | go-multiaddr/protocol.go:56-80 | Registering keeps all other protocols registered, and keeps the registry sound if and only if the code is zero, or has at most 31 bits and is what VCode encodes. |
| `Multiaddrs.AddProtocolExactly` | go-multiaddr/protocol.go:56-80 | The exact condition for accepting a protocol, and what is then registered. |
| `Multiaddrs.AnyVCodeIsTaken` | go-multiaddr/protocol.go:56-80 | A protocol whose VCode encodes another code is registered, and the registry is no longer sound. |
| `Multiaddrs.MakeComponent` | go-multiaddr/component.go:246-281 | The buffer is filled with code, length and value, and validated. |
| `Multiaddrs.ToBytes` | go-multiaddr/multiaddr.go:88-100 | The loop concatenates the bytes of the components. |
| `Multiaddrs.ReadMultiaddr` | go-multiaddr/codec.go:133-157 | The reading loop computes the parsed list or fails, also behind a path component. |
| `MultiaddrText.TextRoundTrip` | go-multiaddr/codec.go:11-68 | Printing a multiaddr and parsing the text gives its bytes and the same multiaddr, for every list of components that can be parsed and printed. |
| `MultiaddrText.TrailingSlashes` | go-multiaddr/codec.go:11-16 | Slashes at the end do not matter. |
| `MultiaddrText.TextBegins` | go-multiaddr/codec.go:11-27 | An accepted text begins with a slash and holds more than slashes. |
| `MultiaddrText.PartsRefused` | go-multiaddr/codec.go:29-44 | An unknown name, and a name without the value it wants, are errors. |
| `MultiaddrText.ValueRefused` | go-multiaddr/codec.go:46-59 | A value is refused that the transcoder does not take or does not accept. |
| `MultiaddrText.ParsedPrintsBack` | go-multiaddr/multiaddr.go:29-63 | Whatever was parsed from bytes prints to a text that parses back to it, if all registered protocols are printable. |
| `MultiaddrText.SplitText` | go-multiaddr/component.go:209-226 | Splitting the printed text at slashes gives exactly the names and values of the components, with a path split into its own parts. |
| `MultiaddrText.ParseAllParts` | go-multiaddr/codec.go:31-65 | Parsing those parts gives the bytes, a path taking all that is left. |
| `MultiaddrText.WriteTo` | go-multiaddr/component.go:209-226 | A component is printed as its name and its value, without a second slash before a path. |
| `MultiaddrText.ToText` | go-multiaddr/multiaddr.go:103-110 | The loop prints the components one after another. |
| `MultiaddrText.StringToBytes` | go-multiaddr/codec.go:11-68 | The parsing loop computes the bytes or fails. |
| `Transcoders.PortFaithful` | go-multiaddr/transcoders.go:143-156 | The port transcoder prints two bytes as the number they are, high byte first, reads back what it prints, and prints no slashes. |
| `Transcoders.PortValue` | go-multiaddr/transcoders.go:143-156 | A port is its two bytes, high byte first, in both directions. |
| `Transcoders.PortEighty` | go-multiaddr/transcoders.go:143-151 | Port 80 is the bytes 0 and 80. |
| `Transcoders.NumberText` | go-multiaddr/transcoders.go:505-511 | The text of n bytes is the number they are, the first byte with the greatest weight (likewise for ports, lines 153-156, and masks, lines 62-67). |
| `Transcoders.NumberBytes` | go-multiaddr/transcoders.go:495-503 | A text is taken if and only if it is digits only, at least one, and below 256^n; its n bytes are the number it says (likewise for ports, lines 143-151, and masks, lines 69-75). |
| `Transcoders.NumberLength` | go-multiaddr/transcoders.go:505-520 | Which byte strings the number transcoders accept and print. |
| `Transcoders.IpCidrFaithful` | go-multiaddr/transcoders.go:62-82 | So does the network mask transcoder with one byte. |
| `Transcoders.MemoryFaithful` | go-multiaddr/transcoders.go:495-520 | So does the memory transcoder with eight bytes, high byte first. |
| `Transcoders.NamesAreFaithful` | go-multiaddr/transcoders.go:92-118 | So do the domain name and IPv6 zone transcoders, and for paths the unix transcoder. |
| `Transcoders.NamesAreThemselves` | go-multiaddr/transcoders.go:395-442 | Names and paths are their own bytes, and the exact conditions for accepting them. |
| `Transcoders.UnixNeedsPathFlag` | go-multiaddr/transcoders.go:397-418 | Without the path flag a unix path could not be read back. |
| `Transcoders.StandardRoundTrip` | go-multiaddr/codec.go:11-68 | In every registry built from protocols without a value or with one of the six transcoders, whatever is parsed from bytes prints to text that parses to the same multiaddr and bytes. |
| `Transcoders.StandardTextRoundTrip` | go-multiaddr/codec.go:11-68 | The same for whatever is parsed from text. |
| `Transcoders.RegisterExactly` | go-multiaddr/protocols.go:332-377 | Such protocols are all accepted if and only if no two have the same code or the same name. |
| `Transcoders.SomeProtocolsRegister` | go-multiaddr/protocols.go:332-377 | tcp, ipcidr, memory, dns, ip6zone, unix and ws are accepted together. |
| `Transcoders.DecimalOfFormat` | go-multiaddr/transcoders.go:143-156 | Reading a printed number gives the number, and it is printed in digits only. |
| `Transcoders.DecimalIsDigitSum` | go-multiaddr/transcoders.go:143-147 | Text is read as digits only, the first with the greatest weight. |
| `Transcoders.FormatIsTheText` | go-multiaddr/transcoders.go:153-156 | The printed number is the only text without leading zeros that is read as it. |
| `Transcoders.BigEndianOfNumber` | go-multiaddr/transcoders.go:143-156 | Writing a number in big-endian order gives back the bytes it was read from. |
| `Transcoders.NumberIsByteSum` | go-multiaddr/transcoders.go:143-156 | The number of bytes is the sum of the bytes with the weights of their places. |
| `DnsResolution.DecapsulateEncapsulate` | go-multiaddr/multiaddr.go:194-234 | Decapsulating what was encapsulated returns the original, for all multiaddrs. |
| `DnsResolution.DecapsulateSuffix` | go-multiaddr/multiaddr.go:199-234 | A suffix is cut off and nothing more, whatever occurs before it. |
| `DnsResolution.DecapsulateAt` | go-multiaddr/multiaddr.go:199-234 | Everything from the last place on where the other is found is cut off. |
| `DnsResolution.DecapsulateNothing` | go-multiaddr/multiaddr.go:199-234 | What is not found leaves the multiaddr as it is. |
| `DnsResolution.Decapsulate` | go-multiaddr/multiaddr.go:199-234 | The nested loops cut the multiaddr at the last place where the other is found. |
| `DnsResolution.SplitFunc` | go-multiaddr/util.go:86-107 | Splits before the first component the callback accepts. |
| `DnsResolution.DropFront` | go-multiaddr-dns/util.go:42-51 | The counting callback drops exactly n components. |
| `DnsResolution.ReadRecord` | go-multiaddr-dns/resolve.go:207-253 | A TXT record yields its address without the suffix if it is dnsaddr= with a text that parses to something followed by the suffix, and nothing otherwise. |
| `DnsResolution.ResolveDnsaddr` | go-multiaddr-dns/resolve.go:185-278 | The results are the prefix in front of the addresses of exactly the usable records, in the order of their indices, cut at a hundred. |
| `DnsResolution.OfferExactly` | go-multiaddr-dns/resolve.go:207-253 | A record is used for an address if and only if it is dnsaddr= with a text that parses to the address, and the address is something followed by the suffix. |
| `DnsResolution.ResolvedExactly` | go-multiaddr-dns/resolve.go:140-264 | What resolving gives, said of the answers: usable TXT records of _dnsaddr.domain, or each IP record of the right kind with the rest behind it, at most a hundred, and an error exactly if the lookup or a conversion fails. |
| `DnsResolution.IpAddrsPick` | go-multiaddr-dns/resolve.go:159-184 | The addresses are those of exactly the records of the right kind, in their order. |
| `DnsResolution.IpAddrsFail` | go-multiaddr-dns/resolve.go:159-184 | Conversion fails if and only if a record of the right kind cannot be converted. |
| `DnsResolution.ResolvedIsExact` | go-multiaddr/component.go:112-117 | For parsed components, which are equal if their bytes are, the addresses are exactly prefix plus record. |
| `DnsResolution.Wrap` | go-multiaddr-dns/resolve.go:258-277 | At most a hundred addresses, each between prefix and suffix. |
| `DnsResolution.Resolve` | go-multiaddr-dns/resolve.go:113-278 | Only the first DNS component is resolved, by the resolver for the longest parent domain of its name, by TXT records of _dnsaddr or by IP records as its protocol says; a failed lookup or conversion is an error; without DNS component the address is returned. |
| `DnsResolution.FirstDns` | go-multiaddr-dns/resolve.go:113-139 | The first component with one of the four DNS protocols, or none. |
| `DnsResolution.DnsCodes` | go-multiaddr-dns/resolve.go:118-126 | The DNS components are those with codes 53 to 56. |
| `DnsResolution.GetResolver` | go-multiaddr-dns/resolve.go:84-109 | The resolver registered for the longest parent domain is taken, the default one if there is none. |
| `DnsResolution.ChosenIsBest` | go-multiaddr-dns/resolve.go:84-109 | The chosen resolver is the one for the longest parent domain that has one. |
| `DnsResolution.FqdnPlain` | go-multiaddr-dns/resolve.go:84-86 | A name without backslashes gets a dot exactly if it does not end with one. |
| `Bitmasks.SlicesSound` | go-libp2p-blossomsub/pubsub.go:1565-1594 | Slicing a non-zero mask gives at least one slice, all distinct one-bit masks of the same length whose OR is the mask; the zero mask is its own only slice. |
| `Bitmasks.SlicesOrdered` | go-libp2p-blossomsub/pubsub.go:1565-1594 | The slices come in the order of their bits, from the first byte on and from the highest bit down. |
| `Bitmasks.SliceOfSlice` | go-libp2p-blossomsub/pubsub.go:1565-1594 | Slicing a slice gives back the slice. |
| `Bitmasks.FastPath` | go-libp2p-blossomsub/pubsub.go:1575-1581 | The fast path for a byte with one bit agrees with the bit loop. |
| `Bitmasks.SliceBitmask` | go-libp2p-blossomsub/pubsub.go:1565-1594 | The nested loops compute the slices. |
| `MessageCache.FreshWindow` | go-libp2p-blossomsub/mcache.go:56-107 | A message put under a fresh id is advertised once for each of its slices and for nothing else while fewer than gossip shifts have passed, and can be fetched exactly while fewer than history shifts have. |
| `MessageCache.AnyWindow` | go-libp2p-blossomsub/mcache.go:56-107 | For any id, also one put again, the message can be fetched exactly as long as none of the entries it had right after the put was shifted out. |
| `MessageCache.SecondPutIsLost` | go-libp2p-blossomsub/mcache.go:56-107 | With two slots, a message put, shifted and put again is lost with the next shift. |
| `MessageCache.RequestsFollowMessages` | go-libp2p-blossomsub/mcache.go:69-107 | Requests are counted only for messages that are there. |
| `MessageCache.RequestsAreCounted` | go-libp2p-blossomsub/mcache.go:69-83 | While a message is there, the count of a peer grows by one with each of its own requests and with nothing else. |
| `MessageCache.AdvertisedBySlot` | go-libp2p-blossomsub/mcache.go:85-95 | The advertised ids are those of the entries with the bitmask, newest slot first, each slot in the order of arrival. |
| `MessageCaches.MessageCache.constructor` | go-libp2p-blossomsub/mcache.go:22-37 | A new cache has the given number of empty slots, also zero. |
| `MessageCaches.MessageCache.Append` | go-libp2p-blossomsub/mcache.go:59-61 | Appending to the newest slot, in place or in a larger array, alters no other slot. |
| `MessageCaches.MessageCache.Put` | go-libp2p-blossomsub/mcache.go:56-62 | A message is stored with one entry per slice in the newest slot. |
| `MessageCaches.MessageCache.GetForPeer` | go-libp2p-blossomsub/mcache.go:69-83 | Returns the message and how often this peer has asked for it. |
| `MessageCaches.MessageCache.GetGossipIds` | go-libp2p-blossomsub/mcache.go:85-95 | Returns the ids of the gossip window for a bitmask, newest slot first. |
| `MessageCaches.MessageCache.Shift` | go-libp2p-blossomsub/mcache.go:97-107 | The oldest ids are dropped and the slots move on; the recycled array is shared with no other slot. |
| `Deliveries.OneCreditPerRecord` | go-libp2p-blossomsub/score.go:713-846 | Over every run, each peer gets at most one duplicate credit per record. |
| `Deliveries.ForwardersOfInvalid` | go-libp2p-blossomsub/score.go:740-846 | Over every run: everybody who forwards a message that is found invalid, before or after, is marked for it while its record is kept. |
| `Deliveries.ForwardersOfValid` | go-libp2p-blossomsub/score.go:713-846 | Over every run, from the delivery that makes a message valid on while its record is kept: everybody who has forwarded it has exactly one credit, except a deliverer that had forwarded it before the delivery. |
| `Deliveries.InvalidMarksAreDue` | go-libp2p-blossomsub/score.go:740-846 | Nobody is marked invalid but for an obvious fault, a message found invalid, or a duplicate of one. |
| `Deliveries.DelivererIsCreditedToo` | go-libp2p-blossomsub/score.go:713-846 | The first deliverer can get a duplicate credit as well, by sending the message again after it was found valid. |
| `Deliveries.RecordSurvives` | go-libp2p-blossomsub/score.go:859-896 | In every run a record is there at least until a collection after its time to live. |
| `Deliveries.DeliverMarks` | go-libp2p-blossomsub/score.go:713-738 | Who is marked by a delivery, and what becomes of the record. |
| `Deliveries.RejectMarks` | go-libp2p-blossomsub/score.go:740-811 | Who is marked by a rejection: the sender for an obvious fault; sender and forwarders if an unjudged message fails validation; nobody otherwise. |
| `Deliveries.RejectDecides` | go-libp2p-blossomsub/score.go:773-811 | The first rejection decides the status and releases the peers. |
| `Deliveries.DuplicateMarks` | go-libp2p-blossomsub/score.go:813-846 | A duplicate is noted, credited once, penalised or ignored, by status. |
| `Deliveries.RecordLife` | go-libp2p-blossomsub/score.go:713-846 | While a record is not collected its status changes at most once, from unknown, and the credits given for it add up to those it counts. |
| `Deliveries.CollectExact` | go-libp2p-blossomsub/score.go:882-896 | Collecting leaves exactly the records that have not expired. |
| `Deliveries.StepKeeps` | go-libp2p-blossomsub/score.go:713-896 | Every operation keeps: map and queue hold the same ids once each, expiries do not decrease, peers are nil exactly in the final states that are not valid, and nobody is credited twice. |
| `Deliveries.DuplicateKeeps` | go-libp2p-blossomsub/score.go:813-846 | A duplicate never writes a nil peers map and keeps the invariant. |
| `Deliveries.DeliverKeeps` | go-libp2p-blossomsub/score.go:713-738 | A delivery keeps the invariant. |
| `Deliveries.RejectKeeps` | go-libp2p-blossomsub/score.go:740-811 | A rejection keeps the invariant. |
| `DeliveryRecords.MessageDeliveries.GetRecord` | go-libp2p-blossomsub/score.go:859-880 | A new record is put in the map and at the end of the linked queue. |
| `DeliveryRecords.MessageDeliveries.Gc` | go-libp2p-blossomsub/score.go:882-896 | The loop unlinks exactly the expired head of the queue and resets the tail when the queue is empty. |
| `DeliveryRecords.MessageDeliveries.ValidateMessage` | go-libp2p-blossomsub/score.go:704-711 | The start of validation creates a record with its expiry if there is none, and changes no existing one. |
| `DeliveryRecords.MessageDeliveries.DeliverMessage` | go-libp2p-blossomsub/score.go:713-738 | A first delivery is marked, the record becomes valid and its other peers are credited. |
| `DeliveryRecords.MessageDeliveries.RejectMessage` | go-libp2p-blossomsub/score.go:740-811 | A rejection takes the step of the model and marks as invalid exactly the sender of a faulty message, or sender and forwarders if the validation of an unjudged message fails. |
| `DeliveryRecords.MessageDeliveries.DuplicateMessage` | go-libp2p-blossomsub/score.go:813-846 | A duplicate is tracked, credited, penalised or ignored as the status says. |
| `Promises.ExactInverses` | go-libp2p-blossomsub/gossip_tracer.go:48-204 | A peer is listed under a promised id exactly if the id is listed under the peer. |
| `Promises.PromiseStep` | go-libp2p-blossomsub/gossip_tracer.go:48-204 | What one event does to one promise: it is made if there is none, and stays with its time until it is excused or found to be over. |
| `Promises.NoFalseBlame` | go-libp2p-blossomsub/gossip_tracer.go:48-204 | Over every run: a promise counted as broken was made more than the follow-up time before, and was not fulfilled, throttled or counted in between. |
| `Promises.BrokenIsBlamed` | go-libp2p-blossomsub/gossip_tracer.go:48-204 | Over every run: a promise that is neither fulfilled nor throttled is counted by the first check after its time, or was before. |
| `Promises.GossipTracer.AddPromise` | go-libp2p-blossomsub/gossip_tracer.go:48-76 | A promise is added for the chosen id unless the peer already made it; both indices stay exact and without empty maps. |
| `Promises.GossipTracer.GetBrokenPromises` | go-libp2p-blossomsub/gossip_tracer.go:80-116 | Exactly the expired promises are removed, and each peer's count is the number of its expired promises. |
| `Promises.GossipTracer.FulfillPromise` | go-libp2p-blossomsub/gossip_tracer.go:120-144 | Exactly the promises for the id are removed. |
| `Promises.GossipTracer.ThrottlePeer` | go-libp2p-blossomsub/gossip_tracer.go:185-204 | Exactly the promises of the peer are removed. |
| `PeerIps.IpTracker.SetIps` | go-libp2p-blossomsub/score.go:1047-1085 | The index loses the obsolete and gains the new IPs of the peer and keeps all other entries. |
| `PeerIps.IpTracker.RemoveIps` | go-libp2p-blossomsub/score.go:1088-1100 | The index loses exactly the IPs of the peer. |
| `PeerIps.IpTracker.AddPeer` | go-libp2p-blossomsub/score.go:600-614 | A connected peer is listed under exactly its current IPs. |
| `PeerIps.IpTracker.RemovePeer` | go-libp2p-blossomsub/score.go:616-651 | A peer with positive score is forgotten with its IPs, any other keeps them while it is retained. |
| `PeerIps.IpTracker.RefreshScores` | go-libp2p-blossomsub/score.go:507-525 | Exactly the disconnected peers whose retention has expired are forgotten, with their IPs. |
| `PeerIps.IpTracker.RefreshIps` | go-libp2p-blossomsub/score.go:572-590 | Exactly the connected peers get their current IPs. |
| `PeerEvents.EventsTellMembership` | go-libp2p-blossomsub/bitmask.go:460-519 | For every handler and peer, delivered events alternate starting with a join, and delivered events together with the pending one give the current membership whenever no notification is under way. |
| `PeerEvents.NobodySleepsForever` | go-libp2p-blossomsub/bitmask.go:495-519 | A consumer that sleeps while the log is not empty can be woken and then finds an event, or another consumer is about to take one and raises the signal if more are left. |
| `PeerEvents.NextKeepsInv` | go-libp2p-blossomsub/bitmask.go:460-519 | Every step of the process loop and of any number of consumers keeps the invariant behind both. |
| `PeerEvents.EventHandler.constructor` | go-libp2p-blossomsub/bitmask.go:114-127 | A new handler has a pending join for every current member and no signal. |
| `PeerEvents.EventHandler.AddToEventLog` | go-libp2p-blossomsub/bitmask.go:467-479 | A new event is logged and signalled, the opposite of a pending one cancels it. |
| `PeerEvents.EventHandler.PullFromEventLog` | go-libp2p-blossomsub/bitmask.go:482-489 | Some pending event is taken out, or none exactly if there is none. |
| `PeerEvents.EventHandler.Poll` | go-libp2p-blossomsub/bitmask.go:495-513 | One locked round of the consumer is a step of the model and raises the signal if events are left. |
| `PeerEvents.Bitmask.SetMember` | go-libp2p-blossomsub/pubsub.go:1152-1176 | Handlers are notified exactly if membership changes. |
| `PeerEvents.Bitmask.SendNotification` | go-libp2p-blossomsub/bitmask.go:138-146 | Every handler gets the event. |

## Left out

- Streams, dialing, the host, the peerstore, the event bus and the network: their effects are parameters or arbitrary choices.
- Clocks, random choices, shuffles and scores: parameters, or arbitrary choices in the methods.
- Signing, hashing and peer records; what `pxConnect` does with the offered peers, and which peers `makePrune` offers.
- The order in which a Go map is walked: any order is allowed.
- Publishing, and with it how a fanout comes about: the router's state machine lets the fanout change freely.
- Follow-up queries of `runLookupWithFollowup`, and the refresh of the routing table.
- Identity of RPC objects in `appendOrMergeRPC`: RPCs are values, so a slice that holds the same RPC twice, or an element that is also in the slice, is not covered.
- The kind of an error: the model says when an operation fails, not with which message.
- Failing datastore writes and queries in the provider manager, and names in the datastore that are not valid base32.
- The network size estimate and the distance thresholds of optimistic provide, and contexts that are cancelled in it.
- The generated codec of the record inside a DHT message: any codec that inverts.
- Transcoders other than the six concrete ones: `MultiaddrText.TextRoundTrip` holds for any that are faithful.
- The DNS lookups themselves: their answers are parameters. Case in domain names is not modelled.
- The score counters, decay and caps behind the marks that delivery records make.
- Closing a bitmask or cancelling an event handler.
- Peer filters, validation, subscriptions and relays of `pubsub.go`, RPC queues, time caches, tracers, options and defaults: they would only add easy members.
- RpcSplit.MergeConserves: IWANT ids are promised in order only if the RPC that is extended has at most one IWANT list, because the code always appends to the first list; otherwise they are promised as a multiset.
- Lookup.LookupEnds: peers are drawn from a finite universe, because nothing in the code bounds how many peers others invent.
- ProviderManagers.ProviderManager.OnQueryResult: the delivered value is one the record has had since the collection began, as the datastore's query promises.
- RouterEngine.BlossomSubRouter.Heartbeat: does not model gossip emission, the sending and coalescing of GRAFTs and PRUNEs, the counters it clears and the shift of the message cache; it requires the parameters to be in their documented order.
- OptimisticProvide.FinishedRun: the return threshold is at least one, as for every positive bucket size.
- Lookup.LookupSafety: alpha is at least one.
- DnsResolution.GetResolver: starts from the fully qualified name, which `DnsResolution.Fqdn` makes of a domain.
