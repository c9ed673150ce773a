# Verification of the heli server's core components

Dafny models of the state machines under `deps/` and of the weighted sampler of
`src/configdoc`, with proofs of what each is relied on for. Verify everything with
`dafny verify dfyconfig.toml`.

| file | models |
|---|---|
| `Framing.dfy` | frame reader and batching writer of the tcp and websocket queues |
| `Wrr.dfy` | smooth weighted round robin |
| `TimerHeap.dfy`, `TimerMgr.dfy` | indexed heap with the `container/heap` operations; timer manager |
| `ConsistentHash.dfy` | consistent-hash ring |
| `ServiceStore.dfy`, `ServicePick.dfy` | one service's instances; weighted pick among them |
| `Watch.dfy`, `WatchRun.dfy` | event handler over the store; every run of the etcd watch pipeline |
| `FastId.dfy` | lock-free id generator |
| `Rpc.dfy`, `RpcTable.dfy` | protocol of pending rpc calls; the table under its mutex |
| `Registrar.dfy` | registration under an etcd lease |
| `Sampling.dfy` | weighted sampling without replacement |
| `Persister.dfy` | write-behind recorder for documents |
| `SpMutex.dfy` | spinning read-write lock |
| `Basics.dfy` | shared vocabulary |

What changes step by step in the source is a class or a method with loops here. Code
that runs concurrently is a transition system: what happens atomically (one atomic
instruction, one section under the mutex, one etcd request) is one step, threads are
scheduled freely, and the theorems are about every reachable state of every run.

Outside inputs are parameters: the protobuf codec (`Framing.Codec`: decoding inverts
encoding, and the empty head has no body), hash functions, clock readings, what a read
returns, the handler's verdict on a message, and whether a remote call fails. What a random
generator answers is a function of how often it was asked and of the bound; the order in
which a Go map is walked is an arbitrary choice.

Claims that do not hold of the code are kept. Each is shown to fail at an input, reached
by a run or by the operations named, and the exact condition under which it holds is proved
for all inputs:

- Two nodes added one after the other can hash to the same ring point; removing the first
  then takes away the point the second holds (`CollidingAdds`, `RemovingMayStealPoints`).
  The other nodes keep all their keys exactly when each point they took over from the
  removed node is followed by a point of its holder (`RemoveMovesOwnKeysIff`).
- On the same ring `GetNodes` for two nodes loops for ever (`GetNodesMayLoop`); it ends
  exactly when at least as many nodes hold points as are asked for (`GetNodesEnds`).
- A key deleted while the watch is down stays in the cache (`DeleteInGapIsMissed`, a run);
  such keys, not mentioned since, are exactly the extras (`ExtrasAreOrphans`).
- A clock that steps back makes an id repeat (`BackwardClockRepeats`); a new id is larger
  than the last exactly when the tick read is not before the last id's
  (`GrowsIffClockDidNotGoBack`).
- An rpc call may end with no callback run and nothing put on its channel (`CallMayEndSilent`, a
  run): exactly when the response left the table and was then found past its expiry
  (`SilentIffExpired`). A blocking caller then still returns, on its own timeout.
- A registrar's update that reports success may have written nothing, although the online
  count or the update time has changed (`UpdateMayNotStore`, a run): exactly when what it found
  under its own lease can be read back and agrees in all that Equal compares (`SkipsIffEqual`).
- A cancel that overtakes its timer's add is lost; it has its effect exactly when the add is
  taken first (`TakeAddAndCancel`).
- `IndexPersister.Get` of an id pending deletion brings the document back in memory
  (`GetRevivesDeleted`); memory and pending changes stay in step exactly when the id has no
  pending delete (`FetchKeepsIff`). `SetData` with a smaller map deletes nothing
  (`SetDataDeletesNothing`, `SetDataKeepsIff`).
- `pickWeight` compares with `<=`, so an entry of weight 0 can be picked
  (`WeightlessIsPicked`), the first entry gets a draw too many and the last of weight one too
  few (`ShareSizes`); the shares are the weights exactly when the first entry carries the
  whole total (`ProportionalIffFirstIsAll`). It subtracts in int32, so a large negative weight
  can make what is left of the draw wrap, and the entry at hand is picked (`WrapPicksEarly`);
  the entry picked is the one the draw falls to exactly when nothing left before it exceeds an
  int32 (`StopsIffNoneExceeds`).
- `TryRLock` can fail although no writer is ever about (`ReadersMayFail`, a run); a read and
  its swap get the lock exactly when at the swap there is no writer and there are as many
  readers as at the read (`ReadLockIff`).

## Model

| member | source | states |
|---|---|---|
| Framing.ParseStable | deps/netmgr/msgque_tcp.go:412-471 | once a prefix decides a frame or an error, more bytes do not change it |
| Framing.ParsesExactly | deps/netmgr/msgque_tcp.go:412-494 | the reference decoder takes for a frame exactly a two-byte big-endian head length, the head, the body, within the receiver's limit; and for an error exactly a long head, one that does not decode, or a length that is negative or over the limit |
| Framing.DecodesItsFrames | deps/netmgr/msgque_tcp.go:412-494 | everything delivered is a frame of the stream within the limit, and a stream is rejected only by the handler or at such an error |
| Framing.RefusableEnds | deps/netmgr/msgque_tcp.go:412-494 | wherever a stream has got to, such an error ends it, with nothing more delivered |
| Framing.DecodeResumes | deps/netmgr/msgque_tcp.go:412-471 | decoding a concatenation is decoding the first part and resuming on its unfinished frame; a rejection is final |
| Framing.ChunkingIndependent | deps/netmgr/msgque_tcp.go:525-550 | however the stream is cut into reads, messages and verdict are those of the whole stream decoded at once |
| Framing.ReadState.constructor | deps/netmgr/msgque_tcp.go:368-379 | an empty state whose buffer holds at least a length field and the longest head |
| Framing.ReadState.ResetFrame | deps/netmgr/msgque_tcp.go:381-385 | back to the zero sentinels |
| Framing.ReadState.Append | deps/netmgr/msgque_tcp.go:402-408 | a read puts its bytes behind the pending ones |
| Framing.ReadState.Grow | deps/netmgr/msgque_tcp.go:387-394 | the buffer reaches the required length and keeps the pending bytes |
| Framing.ReadState.ShiftLeft | deps/netmgr/msgque_tcp.go:466-469 | the overlapping move leaves exactly the unconsumed bytes |
| Framing.MsgQue.EnsureFrameCapacity | deps/netmgr/msgque_tcp.go:473-494 | accepts a frame exactly up to the read size, or four times it when dialled or not a gate, and then has room for all of it |
| Framing.MsgQue.HandleReadMessage | deps/netmgr/msgque_tcp.go:496-507 | hands over the decoded head with exactly the body's bytes; false without a message |
| Framing.MsgQue.ConsumeHeadLen | deps/netmgr/msgque_tcp.go:415-426 | the first stage and its zero sentinel agree with the reference decoder |
| Framing.MsgQue.ConsumeHead | deps/netmgr/msgque_tcp.go:428-448 | waits, rejects or leaves the decoded head and a buffer with room for the body |
| Framing.MsgQue.ConsumeBody | deps/netmgr/msgque_tcp.go:450-459 | delivers the frame's own head and body, or waits with room left in the buffer |
| Framing.MsgQue.ConsumeFrame | deps/netmgr/msgque_tcp.go:414-460 | one turn of the loop, resumed at whichever stage the sentinels say, takes the reference decoder's step |
| Framing.MsgQue.ConsumeFrames | deps/netmgr/msgque_tcp.go:413-460 | the whole loop agrees with decoding the bytes since the last frame boundary, and leaves room in the buffer |
| Framing.MsgQue.ConsumeReadBuffer | deps/netmgr/msgque_tcp.go:412-471 | after a consume, everything delivered and the verdict are those of decoding every byte received so far; on success fewer bytes are pending than the buffer holds |
| Framing.MsgQue.ReadTcp | deps/netmgr/msgque_tcp.go:509-551 | for any sizes of reads that fit the buffer, the run equals the one-pass decoder on the bytes taken, and positive sizes consume everything; only frames of the stream within the limit are delivered, and a rejection has its cause in it |
| Framing.MsgQue.ReadTurn | deps/netmgr/msgque_ws.go:559-594 | one turn: the full-buffer check never fires, and a read of positive size makes progress until every frame is read |
| Framing.MsgQue.ReadWebSocket | deps/netmgr/msgque_ws.go:543-595 | the same as tcp over websocket frames |
| Framing.Message.Bytes | deps/msg/message.go:95-127 | appends the frame of the message with its body length stamped in, or nothing and an error |
| Framing.WireIs | deps/msg/message.go:95-127 | the bytes of a message: two bytes of head length, high byte first, the head with the body's length, the body; none exactly when the head does not encode or is longer than 65535 |
| Framing.MsgWriter.AppendWriteBuffer | deps/netmgr/msgque_tcp.go:553-560 | appends one message's frame; a nil message writes nothing |
| Framing.MsgWriter.DrainWriteQueue | deps/netmgr/msgque_tcp.go:570-581 | the frames of the first entries in order, and the queue without them; fails exactly when one of them cannot be encoded |
| Framing.MsgWriter.CollectWriteBatch | deps/netmgr/msgque_tcp.go:652-666 | the first message's frame followed by those queued, at most 256, leaving the rest queued |
| Framing.FrameRoundTrips | deps/msg/message.go:95-127 | a frame is read back as its message, whatever follows, exactly when the head is at most 1024 bytes and the frame at most the read size, or four times it when dialled or not a gate |
| Framing.BatchRoundTrips | deps/netmgr/msgque_tcp.go:553-581 | any list of acceptable messages written as one batch is delivered in order with nothing left over |
| Framing.SentIsReceived | deps/netmgr/msgque_tcp.go:652-666 | the frames of a batch cut into reads at will come out as exactly the messages sent |
| Framing.WriteBatch | deps/netmgr/msgque_tcp.go:652-666 | the writer's buffer holds exactly the frames of the packets queued, nil entries skipped; fails exactly when one of them cannot be encoded |
| Framing.ReadBatch | deps/netmgr/msgque_tcp.go:509-551 | the read loop, given those bytes in reads of any sizes, has delivered exactly the packets, with nothing left over |
| Framing.WriteThenRead | deps/netmgr/msgque_tcp.go:652-666 | from write queue to handler: what is queued, nil entries aside, is what is delivered, in order, with lengths filled in |
| Wrr.Balancer.Pick | deps/selector/wrr/wrr.go:35-61 | picks the first entry with the highest raised weight; every address gains its weights and the picked one pays the total, duplicate addresses included |
| Wrr.Balancer.Serve | deps/selector/wrr/wrr.go:35-61 | the method's picks form a run; W of them choose every node exactly its weight and bring all current weights back to zero |
| Wrr.PickIsTurn | deps/selector/wrr/wrr.go:44-56 | over distinct addresses a pick is one turn of the vector system the theorems are about |
| Wrr.Balanced | deps/selector/wrr/wrr.go:44-56 | after any number of picks the current weights sum to zero and each stays above -W |
| Wrr.Owed | deps/selector/wrr/wrr.go:44-56 | a current weight is k shares of the node's weight less W for each time it was picked |
| Wrr.ExactFairness | deps/selector/wrr/wrr.go:44-56 | W picks from the zero state choose node i exactly w_i times and return to the zero state |
| Wrr.EveryWindowFair | deps/selector/wrr/wrr.go:44-56 | so does every window of W consecutive picks |
| TimerHeap.RootIsLeast | deps/timer_mgr/timer_mgr.go:58-62 | the heap's root has the least time |
| TimerHeap.UpStep | deps/timer_mgr/timer_mgr.go:58-75 | one swap of sifting up moves the only disordered edge to the parent |
| TimerHeap.DownStep | deps/timer_mgr/timer_mgr.go:58-85 | one swap of sifting down moves the disorder to the lesser child |
| TimerHeap.SwapKeepsAround | deps/timer_mgr/timer_mgr.go:64-85 | putting the last timer in a slot upsets only the edges at that slot |
| TimerHeap.Heap.Swap | deps/timer_mgr/timer_mgr.go:64-68 | exchanges two slots and keeps every timer's index its slot |
| TimerHeap.Heap.Up | deps/timer_mgr/timer_mgr.go:58-75 | restores order upwards with the same timers |
| TimerHeap.Heap.Down | deps/timer_mgr/timer_mgr.go:58-85 | restores order downwards, or reports that nothing moved |
| TimerHeap.Heap.Push | deps/timer_mgr/timer_mgr.go:70-75 | ordered and indexed, with the new timer added |
| TimerHeap.Heap.Pop | deps/timer_mgr/timer_mgr.go:77-85 | takes out the root and stays ordered and indexed |
| TimerHeap.Heap.Remove | deps/timer_mgr/timer_mgr.go:361-363 | takes out the timer in a slot and stays ordered and indexed |
| TimerMgr.CatchUp | deps/timer_mgr/timer_mgr.go:255-263 | however many periods were missed, the schedule told is on the timer's grid and less than an interval old |
| TimerMgr.RunningIsSound | deps/timer_mgr/timer_mgr.go:265-267 | a live timer under its limit may run without breaking any limit or any cancellation |
| TimerMgr.Manager.constructor | deps/timer_mgr/timer_mgr.go:142-161 | starts stopped and in the invariant: heap ordered and indexed, its timers the map's values, no cancelled timer in it, limits and cancellations respected by the log |
| TimerMgr.Manager.Start | deps/timer_mgr/timer_mgr.go:169-182 | running from now on |
| TimerMgr.Manager.Stop | deps/timer_mgr/timer_mgr.go:184-202 | not running, and the context cancelled for good |
| TimerMgr.Manager.ServedKeepsPhase | deps/timer_mgr/timer_mgr.go:255-267 | a timer that ran is next due a whole number of intervals later, within one interval from now |
| TimerMgr.Manager.HeadIsNext | deps/timer_mgr/timer_mgr.go:239-244 | a due head is the earliest timer not yet run, and when the head is not due nothing due is left |
| TimerMgr.Manager.FireOne | deps/timer_mgr/timer_mgr.go:246-267 | one turn runs the head once, requeues or retires it by its limit and touches no other timer; the cancelled branch is dead |
| TimerMgr.Manager.ExecuteTimer | deps/timer_mgr/timer_mgr.go:272-298 | logs one callback with its due time and the schedule told |
| TimerMgr.Manager.HandleRecurringTimer | deps/timer_mgr/timer_mgr.go:301-316 | counts the run, then retires the timer at its limit or requeues it one interval after its schedule |
| TimerMgr.Manager.ProcessTickers | deps/timer_mgr/timer_mgr.go:233-269 | a tick terminates, runs exactly the due timers once each in order of due time, logs exactly those callbacks and leaves the rest alone |
| TimerMgr.Manager.AddTimer | deps/timer_mgr/timer_mgr.go:374-417 | the checks in order with their errors, then the channel beside the cancelled context; a success queues a timer under an id never used |
| TimerMgr.Manager.CancelTimer | deps/timer_mgr/timer_mgr.go:429-442 | queues the id, or says why not |
| TimerMgr.Manager.AddTimerInternal | deps/timer_mgr/timer_mgr.go:319-345 | moves a queued timer into heap and map and keeps the invariant; the duplicate-id branch is dead |
| TimerMgr.Manager.CancelTimerInternal | deps/timer_mgr/timer_mgr.go:348-371 | takes the timer out of heap and map; from here on the log never names it; an unknown id changes nothing |
| TimerMgr.Manager.TakeAddAndCancel | deps/timer_mgr/timer_mgr.go:212-230 | of a queued add and its cancel the main loop may take either first; the timer ends up cancelled exactly when the add was taken first |
| ConsistentHash.SortSorts | deps/basal/consistent_hash.go:62 | sorting yields an ordered sequence with the same contents |
| ConsistentHash.ItoaReads | deps/basal/consistent_hash.go:168-178 | a number's text reads back as the number |
| ConsistentHash.ItoaInjective | deps/basal/consistent_hash.go:168-178 | so different numbers are looked up under different texts |
| ConsistentHash.SortedUnique | deps/basal/consistent_hash.go:86 | a sorted ring is determined by its contents, in whatever order the map was walked |
| ConsistentHash.AddedWellFormed | deps/basal/consistent_hash.go:57-64 | adding keeps the ring sorted, its points the map's keys, and every point with a live owner that hashes to it |
| ConsistentHash.RemovedWellFormed | deps/basal/consistent_hash.go:75-88 | so does removing, and the removed node is gone |
| ConsistentHash.RemovedIsNotAnswered | deps/basal/consistent_hash.go:67-112 | a lookup after a removal never answers the removed node, collisions or not |
| ConsistentHash.AddMovesToNewNode | deps/basal/consistent_hash.go:49-65 | adding a node moves a key only to that node, collisions or not |
| ConsistentHash.RemoveMovesOwnKeys | deps/basal/consistent_hash.go:67-89 | without collisions only the removed node's keys move |
| ConsistentHash.RemoveMovesOwnKeysIff | deps/basal/consistent_hash.go:67-89 | with them, the others keep all keys if and only if, on the ring as it is before the removal, each point taken over is followed by a point of its holder |
| ConsistentHash.CollidingAdds | deps/basal/consistent_hash.go:49-65 | from the empty ring, two adds that leave both nodes live and one of them without a point |
| ConsistentHash.RemovingMayStealPoints | deps/basal/consistent_hash.go:76-79 | on that ring removing one node leaves the other, still live, without points |
| ConsistentHash.AddThenRemove | deps/basal/consistent_hash.go:49-89 | adding then removing restores the map exactly when the points were free, and the ring too exactly when it held no point twice |
| ConsistentHash.Search | deps/basal/consistent_hash.go:105-107 | binary search finds the first slot at or above the hash |
| ConsistentHash.SlotOwner | deps/basal/consistent_hash.go:104-111 | that slot, wrapped, is the clockwise successor's |
| ConsistentHash.LapMeetsAll | deps/basal/consistent_hash.go:138-153 | one lap meets every owner and no walk meets more |
| ConsistentHash.GetNodesEnds | deps/basal/consistent_hash.go:138-153 | the collecting loop ends if and only if the ring has as many owners as are wanted, within one lap |
| ConsistentHash.GetNodesMayLoop | deps/basal/consistent_hash.go:138-153 | on that ring a walk of any length meets fewer nodes than asked for, so the loop never ends |
| ConsistentHash.AllPlacedEnds | deps/basal/consistent_hash.go:118-124 | which holds whenever every live node has a point |
| ConsistentHash.FirstIsOwner | deps/basal/consistent_hash.go:91-156 | the first of GetNodes is the answer of GetNode |
| ConsistentHash.ConsistentHash.AddNode | deps/basal/consistent_hash.go:49-65 | adds a new node and refuses a known one; after it the hash of each of the node's virtual keys is in the ring and the node's, and every other point is as it was |
| ConsistentHash.ConsistentHash.RemoveNode | deps/basal/consistent_hash.go:67-89 | removes a live node and refuses an unknown one; exactly the hashes of its virtual keys are gone from the map |
| ConsistentHash.ConsistentHash.Rebuild | deps/basal/consistent_hash.go:82-86 | the sorted ring of the map's keys, each once, whatever the order they come in |
| ConsistentHash.ConsistentHash.GetNode | deps/basal/consistent_hash.go:91-112 | answers the live owner of the key's hash; nothing exactly for an empty ring or an unsupported key |
| ConsistentHash.ConsistentHash.GetNodes | deps/basal/consistent_hash.go:114-156 | the first min(count, live) distinct owners walking clockwise from the key's hash |
| ServiceStore.SwapRemoveById | deps/service_mgr/store.go:66-78 | swap-remove with its index update keeps index and slice inverse and forgets exactly one id |
| ServiceStore.SetById | deps/service_mgr/store.go:33-50 | replacing or appending keeps them inverse and sets exactly one id |
| ServiceStore.StoreIsContents | deps/service_mgr/store.go:9-15 | the slice holds exactly the registered instances, each once |
| ServiceStore.Service.Publish | deps/service_mgr/store.go:34-40 | a fresh array is published and no array published before changes |
| ServiceStore.Service.SetInstance | deps/service_mgr/store.go:26-51 | sets the id, hands back the instance replaced, and inherits its net status and load; ring members stay the index keys |
| ServiceStore.Service.Replace | deps/service_mgr/store.go:33-42 | the copied slice with one slot replaced, net status and load handed down |
| ServiceStore.Service.Append | deps/service_mgr/store.go:44-49 | the copied slice one longer, its index entry and its ring member |
| ServiceStore.Service.RemoveInstance | deps/service_mgr/store.go:53-82 | removes the id and returns its instance, or nothing; every earlier slice is unchanged |
| ServiceStore.Service.SwapRemove | deps/service_mgr/store.go:66-81 | the copied slice and index after the swap-remove, and the ring without the id |
| ServiceStore.Service.GetInstance | deps/service_mgr/store.go:84-93 | the instance registered under the id, or nothing |
| ServiceStore.Service.Snapshot | deps/service_mgr/store.go:95-110 | the published slice itself, or a private one with the instances the filter keeps, in order; a filter sees every field of an instance |
| ServiceStore.Service.GetByHashKey | deps/service_mgr/store.go:118-131 | the stored instance of the ring's owner; the guards after the ring lookup never fail |
| ServicePick.PickWeight | deps/service_mgr/service_mgr.go:221-240 | the first entry at which nothing is left of the draw, what is left being an int32, for weights of any sign; no pick exactly for a zero total; the fallback is dead |
| ServicePick.StopsIffNoneExceeds | deps/service_mgr/service_mgr.go:233-239 | that is the first entry whose running total reaches the draw if and only if nothing left before it exceeds an int32 |
| ServicePick.WrapPicksEarly | deps/service_mgr/service_mgr.go:233-239 | weights -2147483648, 2147483647 and 2, where the draw 0 falls to the last entry and picks the first |
| ServicePick.ShareSizes | deps/service_mgr/service_mgr.go:233-239 | how many draws each entry gets, zero weights included: for a total that fits an int32 the first gets one more than its weight, up to the total, and the one completing the total one less; the general formula for larger totals |
| ServicePick.ProportionalIffFirstIsAll | deps/service_mgr/service_mgr.go:233-239 | shares equal weights if and only if the first entry carries the whole total |
| ServicePick.WeightlessIsPicked | deps/service_mgr/service_mgr.go:233-239 | weights 0 and 5, where the draw 0 picks the entry of no weight |
| Watch.CallbacksMirrorStore | deps/service_mgr/service_mgr.go:385-419 | for any events, a listener's picture from the callbacks alone is the store, and each callback fits what came before |
| Watch.ProtocolIsTracked | deps/service_mgr/service_mgr.go:371-382 | each instance's callbacks follow (online update* offline)* and end online exactly when it is stored |
| Watch.Manager.PutInstance | deps/service_mgr/service_mgr.go:387-406 | stores the instance and asks for online, update or nothing by what was there; nothing happens without a service or an instance |
| Watch.Manager.DeleteInstance | deps/service_mgr/service_mgr.go:407-416 | removes the id and asks for offline exactly when it was stored |
| Watch.Manager.UpdateServiceState | deps/service_mgr/service_mgr.go:385-419 | store and callback are those of the reference handler; a put without a service is ignored |
| Watch.Manager.EnsureService | deps/service_mgr/service_mgr.go:323-334 | creates an empty service when there is none, and otherwise changes nothing |
| Watch.Manager.UpdateAndTriggerInstance | deps/service_mgr/service_mgr.go:353-383 | one event takes cache and callback log where the reference handler does; nothing without a listener, and no callbacks without a handler |
| Watch.StoreIsReplay | deps/etcd/etcd_watcher.go:118-174 | handling all delivered events leads to snapshots laid over the store and changes applied in turn |
| Watch.LiveKeysCurrent | deps/etcd/etcd_watcher.go:118-146 | every live key is stored with its current value, restarts or not |
| Watch.NoRestartExact | deps/etcd/etcd_watcher.go:118-174 | without a restart the store is the etcd state at the last revision |
| Watch.ExtrasAreOrphans | deps/etcd/etcd_watcher.go:129-146 | the keys stored beyond the etcd state are exactly those deleted in a gap and not mentioned since |
| WatchRun.InvStep | deps/etcd/etcd_watcher.go:99-174 | every step keeps sent, in flight and handled events one sequence in order |
| WatchRun.ListenerSeesStore | deps/service_mgr/watcher.go:36-62 | in every run the handled events are a prefix of those sent, and the listener's picture is the store |
| WatchRun.StoreFollowsEtcd | deps/etcd/etcd_watcher.go:118-174 | in every run, at each delivery boundary: live keys current, extras exactly the orphans, exact without restart |
| WatchRun.DrainedIsCaughtUp | deps/service_mgr/watcher.go:36-62 | with nothing in flight everything sent has been handled, failures skipped |
| WatchRun.CaughtUpIsCurrent | deps/etcd/etcd_watcher.go:118-174 | in every run, streamed to the end and with nothing in flight the store has every live key of etcd now, and beyond them exactly the orphans |
| WatchRun.StepsGetOn | deps/etcd/etcd_watcher.go:118-174 | in every run, a load or batch takes the watcher to where it says, forwarding takes one response out of the way, and a delivery handles the next event sent |
| WatchRun.DeleteInGapIsMissed | deps/etcd/etcd_watcher.go:129-146 | a run at whose end etcd is empty, everything sent has been handled and the store is not empty |
| FastId.ConstructedIsValid | deps/fastid/fastid.go:45-57 | any split of at most 63 bits is a layout the theorems apply to |
| FastId.FieldsDecode | deps/fastid/fastid.go:104-117 | time, sequence number and machine id read back what was composed; the machine id's int32 getter exactly for ids below 2^31 |
| FastId.CommonReadsBack | deps/fastid/fastid.go:66-71 | the common layout is valid and its machine id always reads back |
| FastId.AttemptFields | deps/fastid/fastid.go:83-96 | an attempt gives up exactly when the tick is not past the last id's and its sequence numbers are used up, and otherwise carries the tick and the number that is due |
| FastId.GrowsIffClockDidNotGoBack | deps/fastid/fastid.go:83-96 | an attempt yields an id in (0, 2^63), larger than the last exactly when the tick is not before the last id's |
| FastId.BackwardClockRepeats | deps/fastid/fastid.go:87-96 | four readings, one stepping back, that yield the same id twice |
| FastId.MachinesNeverClash | deps/fastid/fastid.go:96 | different machine ids never compose the same id |
| FastId.MinFastIdSeparates | deps/fastid/fastid.go:192-195 | an id is at or above a millisecond's minimum if and only if its tick is not earlier |
| FastId.TimeReadsBack | deps/fastid/fastid.go:120-124 | the time read from an id is at most two milliseconds behind the clock it was made from |
| FastId.InvStep | deps/fastid/fastid.go:81-102 | load, clock reading and swap of any thread keep the invariant |
| FastId.IdsIncrease | deps/fastid/fastid.go:81-102 | in every interleaving with a clock that never goes back, ids strictly increase, stay in (0, 2^63) and respect MinFastIdAt |
| FastId.StampsUnlessFull | deps/fastid/fastid.go:83-96 | in every interleaving, what a clock reading makes of the id loaded before it |
| FastId.SwapIssuesIff | deps/fastid/fastid.go:83-99 | in every interleaving, a load and its swap issue the stamped id if and only if none was issued in between |
| FastId.RunsNeverClash | deps/fastid/fastid.go:81-102 | two generators with different machine ids never issue the same id |
| Rpc.InvStep | deps/rpc_mgr/rpc_mgr.go:61-301 | every step keeps the account: one departure from the table pays for all a call ever gets |
| Rpc.AtMostOnce | deps/rpc_mgr/rpc_mgr.go:202-232 | in every interleaving a call leaves the table at most once, handler and failed never both run nor twice, one channel value at most, and the freed and full branches are dead |
| Rpc.AnsweredInTime | deps/rpc_mgr/rpc_mgr.go:213-231 | in every run an answer in time runs the handler or goes on the channel, for the first and only time, with or without a failure callback |
| Rpc.TakenOutIsTold | deps/rpc_mgr/rpc_mgr.go:202-301 | in every run, once a call that was taken out has no duty left: after a response it was answered or its answer dropped, after a failure its failure callback ran, and after a send failure or Stop a blocking caller has its value |
| Rpc.SilentIffExpired | deps/rpc_mgr/rpc_mgr.go:202-232 | in every run, a finished call with a way to answer and a failure callback ran no callback and put nothing on its channel if and only if its response, once out of the table, was found past its expiry |
| Rpc.DropsAtGuard | deps/rpc_mgr/rpc_mgr.go:213-216 | a step drops an answer exactly when it performs a response past its expiry |
| Rpc.DroppedIffExpired | deps/rpc_mgr/rpc_mgr.go:213-216 | in every run an answer has been dropped if and only if some earlier step was such a response |
| Rpc.EmptyAfterStop | deps/rpc_mgr/rpc_mgr.go:270-283 | after Stop's locked section the table is empty for good |
| Rpc.CallMayEndSilent | deps/rpc_mgr/rpc_mgr.go:202-216 | a run of five steps after which a call is finished, no callback ran and nothing was put on its channel |
| RpcTable.RpcMgr.Enter | deps/rpc_mgr/rpc_mgr.go:89-100 | the locked part of a request is the protocol's insert step, refused once stopped |
| RpcTable.RpcMgr.RemoveRpcCall | deps/rpc_mgr/rpc_mgr.go:61-75 | takes one call out, frees it if asked, and is the protocol's removal |
| RpcTable.RpcMgr.TakeExpired | deps/rpc_mgr/rpc_mgr.go:250-258 | the sweep's loop takes out every call expired before it began and none not expired when it ends, lists each once and frees it |
| RpcTable.RpcMgr.Sweep | deps/rpc_mgr/rpc_mgr.go:249-259 | which is the protocol's sweep step |
| RpcTable.RpcMgr.StopSwap | deps/rpc_mgr/rpc_mgr.go:271-273 | says whether it was stopped already, and is the protocol's first stop step |
| RpcTable.RpcMgr.StopLock | deps/rpc_mgr/rpc_mgr.go:275-283 | lists every call once, frees it, empties the table, and is the protocol's second stop step |
| Registrar.InvStep | deps/etcd/registrar.go:172-372 | every step keeps each lease with the registrar it was granted to, and changes the key only by deletion or by its own lease's owner |
| Registrar.WritesAreOwn | deps/etcd/registrar.go:208-372 | in every run a write puts the registrar's own data under its own live lease on a key that is absent or already bound to that lease |
| Registrar.OwnerChangesAcrossDeletion | deps/etcd/registrar.go:172-372 | while the key stays present its lease and owner do not change |
| Registrar.RegisteredIsLive | deps/etcd/registrar.go:181-248 | what is registered is its owner's data under a live lease |
| Registrar.RegisteredAfterPut | deps/etcd/registrar.go:197-205 | in every run, a lease about to be stored as current is the registrar's own, and the key was put under it, where there was none, with data the registrar held since it started |
| Registrar.RegistrationSucceeds | deps/etcd/registrar.go:172-206 | in every run, a registration or re-registration that reports success has put its data under a lease of its own, where there was no key, and then made that lease the current one |
| Registrar.UpdateSucceeds | deps/etcd/registrar.go:251-322 | in every run, an update that reports success has since its start had the key under its registrar's own lease with the data held at the comparison: exactly that if it was put, up to what Equal leaves out if it was found |
| Registrar.SkipsIffEqual | deps/etcd/registrar.go:296-312 | an update writes nothing over what it found under its own lease exactly when that can be read back and Equal finds no difference, and then stored the data exactly when the rest agrees too |
| Registrar.UpdateMayNotStore | deps/etcd/instance.go:32-45 | a run of nine steps in which an update reports success and the changed online count is never written |
| Registrar.FailureHasACause | deps/etcd/registrar.go:172-372 | in every run, a reported failure comes from a request that was not acknowledged, or in an update from having no lease, a second refusal, or no new lease after a first one |
| Registrar.CloseSucceeds | deps/etcd/registrar.go:234-248 | in every run, a close that reports success has left the registrar without a lease and the one it had dead |
| Registrar.LossIsNoted | deps/etcd/registrar.go:138-163 | in every run, after the keep-alive loop has dealt with a lost lease the registrar no longer has it |
| Sampling.OwnerUnique | src/configdoc/config_random_mode.go:144-172 | no draw belongs to two entries, so prefix search and linear scan agree |
| Sampling.DrawShare | src/configdoc/config_random_mode.go:144-172 | of all draws, an entry owns exactly as many as its weight |
| Sampling.NewXWeight | src/configdoc/config_random_mode.go:86-98 | prefix sums and total, with no int32 wrap for totals that fit |
| Sampling.RandMergeOneStaticByTotal | src/configdoc/config_random_mode.go:144-156 | binary search in the prefix sums finds the draw's owner; not found exactly past the total |
| Sampling.RandMergeOneStatic | src/configdoc/config_random_mode.go:100-115 | the item of the entry that owns the generator's answer; nothing, and no question, only for an empty list |
| Sampling.RandMergeOneWorkStateByTotal | src/configdoc/config_random_mode.go:158-172 | so does the scan of the working slice |
| Sampling.SwapRemoveTotals | src/configdoc/config_random_mode.go:128-132 | swap-remove takes out one entry and exactly its weight |
| Sampling.RandMergeOneWorkState | src/configdoc/config_random_mode.go:117-134 | removes the owner of the generator's answer in place and keeps the total the remaining weight |
| Sampling.RandMergeNForEachWorkState | src/configdoc/config_random_mode.go:61-78 | as many entries as wanted or there are, each the owner of its own answer among those left, which with the rest make up the original list |
| Sampling.OwnsAmongLeft | src/configdoc/config_random_mode.go:68-77 | the k-th entry drawn owns the k-th answer in a list of exactly the entries not drawn before |
| Sampling.RandMergeNForEachStatic | src/configdoc/config_random_mode.go:52-59 | as many items as wanted, the i-th that of the owner of the i-th answer |
| Sampling.RandomWeightN | src/configdoc/config_random.go:105-132 | num items with repeats, min(num, entries) different ones without; each the owner of its own answer, in the whole list or among those left |
| Sampling.RandWeightNByFilterFast | src/configdoc/config_random.go:173-191 | what is kept of the items of the first answers, at most 3 num of them: eligible items only, no repeats when none are allowed, at most what was asked |
| Sampling.KeptMeans | src/configdoc/config_random.go:176-189 | of the items offered exactly those the filter lets through are kept, once each without repeats and as often as offered with them |
| Sampling.Remaining | src/configdoc/config_random.go:198-207 | exactly the eligible entries not excluded, in order, still adding up within int32 |
| Sampling.RandWeightNByFilterSlow | src/configdoc/config_random.go:193-238 | exactly min(num, eligible not excluded) different items, or num with repeats, each the owner of its answer among the survivors |
| Sampling.FastThenSlow | src/configdoc/config_random.go:144-151 | the fast path completed by the slow one gives exactly the count asked or available, out of the answers of the two in a row |
| Sampling.RandWeightNByFilter | src/configdoc/config_random.go:134-158 | for every outcome of the generator and every existingCount: eligible items only, and with distinct items exactly min(num, eligible) different ones, or with repeats num or none; and which items an outcome leads to |
| Sampling.FilterFastIff | src/configdoc/config_random.go:160-171 | when the fast path is tried first, for counts whose products fit an int32 |
| Persister.OrderIndependent | deps/mongoclient/index_persister.go:225 | a batch leads to the same database in any order |
| Persister.RetryConverges | deps/mongoclient/index_persister.go:225-229 | any part of a batch followed by all of it leads where the batch alone does |
| Persister.UpsertKeeps | deps/mongoclient/simple_record.go:177-185 | an update keeps pending changes, database and memory in step |
| Persister.DeleteKeeps | deps/mongoclient/simple_record.go:187-195 | so does an unset |
| Persister.FetchKeepsIff | deps/mongoclient/index_persister.go:340-358 | a fetch keeps them in step exactly when the id has no pending delete |
| Persister.GetRevivesDeleted | deps/mongoclient/index_persister.go:340-358 | load, delete and read one document: it is back in memory while its delete stands |
| Persister.OthersKeepIff | deps/mongoclient/index_persister.go:202-231 | writes by others leave them in step exactly when no known document is written but those with a change pending, which the next save writes over |
| Persister.SetDataKeepsIff | deps/mongoclient/index_persister.go:365-373 | replacing the map keeps them in step exactly when no known document left out is in the database |
| Persister.SetDataDeletesNothing | deps/mongoclient/index_persister.go:365-373 | load two documents and set one of them: the other stays in the database |
| Persister.PartKeeps | deps/mongoclient/index_persister.go:225-228 | a batch applied in any part leaves them in step |
| Persister.BatchIsApplied | deps/mongoclient/simple_record.go:232-261 | the batch written is exactly the pending changes |
| Persister.PartThenApplied | deps/mongoclient/index_persister.go:225-229 | a half-applied batch does not change where the pending changes lead |
| Persister.Collection.BulkWrite | deps/mongoclient/index_persister.go:225 | an unordered batch: some part of the writes in some order, and all of them when the database answers |
| Persister.Collection.Find | deps/mongoclient/index_persister.go:154-164 | the index value's documents with the largest ids, up to the limit |
| Persister.MultiDocRecorder.Set | deps/mongoclient/simple_record.go:177-185 | an upsert, and no delete, for the id |
| Persister.MultiDocRecorder.Unset | deps/mongoclient/simple_record.go:187-195 | a delete, and no upsert, for the id |
| Persister.MultiDocRecorder.GenWriteModels | deps/mongoclient/simple_record.go:232-261 | one write per pending change, each id once |
| Persister.IndexPersister.AddUpdateOp | deps/mongoclient/index_persister.go:264-281 | records and remembers the document; nothing when read-only or without one |
| Persister.IndexPersister.AddUnsetOp | deps/mongoclient/index_persister.go:283-296 | records the delete and forgets the document; nothing when read-only |
| Persister.IndexPersister.SetData | deps/mongoclient/index_persister.go:365-373 | replaces the map and records upserts only; in step under exactly the condition above |
| Persister.IndexPersister.Get | deps/mongoclient/index_persister.go:320-359 | memory first, then the database; exactly when which error; breaks the invariant exactly when it fetches an id pending deletion |
| Persister.IndexPersister.Load | deps/mongoclient/index_persister.go:118-200 | memory becomes all documents of the index value, or the limit of them with the largest ids; pending changes are dropped; exactly when which error, and a failure changes nothing |
| Persister.IndexPersister.Save | deps/mongoclient/index_persister.go:202-231 | the guards; fails exactly when there is something to write and encoding or the database fails; a success brings the database to memory on every known id, a failure keeps what is pending and where it leads |
| Persister.IndexPersister.Flush | deps/mongoclient/index_persister.go:218-230 | after success the database is the pending changes applied and nothing is pending; after failure both lead where they did |
| SpMutex.SPMutex.TryLock | deps/xsync/sp_mutex.go:17-19 | succeeds exactly when nobody holds the lock |
| SpMutex.SPMutex.Unlock | deps/xsync/sp_mutex.go:29-33 | succeeds exactly for a held write lock and otherwise changes nothing |
| SpMutex.SPMutex.TryRLock | deps/xsync/sp_mutex.go:35-43 | run alone, succeeds exactly when there is no writer |
| SpMutex.SPMutex.RUnlock | deps/xsync/sp_mutex.go:60-65 | a negative result reports exactly the unlocks without a reader |
| SpMutex.InvStep | deps/xsync/sp_mutex.go:17-65 | every step, plain read and swap apart, keeps the word the writer bit plus twice the readers, and a writer alone |
| SpMutex.Exclusion | deps/xsync/sp_mutex.go:17-65 | in every run a writer excludes all others, the holder's Unlock succeeds and a reader's RUnlock never reports |
| SpMutex.ReadLockIff | deps/xsync/sp_mutex.go:35-58 | in every run, a read and its swap get the lock if and only if at the swap there is no writer and there are as many readers as at the read |
| SpMutex.WriteLockIff | deps/xsync/sp_mutex.go:17-27 | in every run, a swap gets the write lock if and only if nobody holds the lock |
| SpMutex.ReleaseFrees | deps/xsync/sp_mutex.go:29-65 | in every run, a writer's release leaves nobody holding the lock and a reader's exactly the other readers |
| SpMutex.ReadersMayFail | deps/xsync/sp_mutex.go:35-43 | a run of four steps without a writer in which a read lock is refused |

## Left out

- Sockets, deadlines, TLS and key exchange, compression and encryption, KCP: not part of the framing logic; `deps/netmgr/msgque_kcp.go` repeats the tcp framing.
- The adaptive delay before a batch is written: only what is queued meanwhile matters, and it is a parameter of `CollectWriteBatch`.
- Framing.MsgWriter.AppendWriteBuffer: a message is taken as already compressed and encrypted; CompressOrEncrypt is not part of this model.
- What the message handler does: its verdict is a function of the messages handed over so far.
- Wrr.Balancer.Pick: weights are integers; with the source's float64 the exact statements hold as long as no rounding happens.
- TimerMgr.Manager.AddTimerInternal: the map entry is made before the push, in one section under the mutex; metrics are taken as enabled, so that `activeTimers` is counted; panics in callbacks and callbacks in their own goroutine are not modelled, nor is int32 wrap of the tick count of an unlimited timer.
- TimerMgr.Manager.AddTimer: times are unbounded integers. In int64 an interval of 2^61 seconds passes the checks and is 0 milliseconds, by which deps/timer_mgr/timer_mgr.go:259 divides.
- ConsistentHash.ConsistentHash.GetNodes: requires the condition under which the loop ends, which `GetNodesEnds` shows to be exact.
- The ring's default hash function and int64 formatting widths: hash and key formatting are parameters; keys are texts and integers.
- Watch.Manager.UpdateAndTriggerInstance: one service name; different names share nothing but the map of services. Keys that do not parse are dropped before the handler and not modelled.
- WatchRun.StoreFollowsEtcd: every stored value decodes to an instance with the id of its key, as registrars write them; a value that does not decode is ignored by the handler (`Watch.Manager.PutInstance`).
- FastId.IdsIncrease: the clock must not go back and must stay within the time field, as the counterexample shows it must; sleeping between attempts is free scheduling.
- Rpc.SilentIffExpired: about calls with both a way to answer and a failure callback; without a failure callback a failure is silent by design.
- Rpc.AtMostOnce: ids are taken as unique, from the id generator; encoding of requests and answers, and the serving side, are not modelled.
- Registrar.InvStep: the etcd lock around registration is not relied on and not modelled; unconditional deletes by others are a free step.
- Sampling.RandWeightNByFilter: totals fit an int32; with the same item twice in a list the exact count and the absence of repeats are not stated; the probability kind and the pool of working slices are not modelled.
- ServicePick.PickWeight: takes a draw the generator can make; for a total other than 0 whose int32 is not positive it makes none and panics.
- ServicePick.ShareSizes: no weight is negative.
- ServicePick.ProportionalIffFirstIsAll: no weight is negative.
- Persister.IndexPersister.Save: with changes to write and no collection the source dereferences nil, which the model requires away; documents are values, so a document changed after it was recorded is not followed; whether the batch can be encoded is a parameter; `Clear`, `SetIndexValue` and `LoadByIndex` are resets and are not modelled; other writers are outside the model but for `OthersKeepIff`.
- SpMutex.Exclusion: the reader count is unbounded; back-off while spinning is free scheduling.
- Logging, metrics text, Redis and Mongo queries, generated code and game logic: no property of theirs is stated.
