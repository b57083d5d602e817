# Verified models of the game accelerator

This project models the parts of the repository that keep state and proves what they promise.

* **The red-black engine of the key-value store.** Node objects with parent links and a sentinel
  are rotated, recoloured and relinked in place. `RedBlack` and `Deletion` hold the theory on tree
  values, where both fixup loops are step functions on a tree with a subtree in focus, and
  `TreeHeight` bounds the height; `TreeLayout` says what the links of the node objects must be;
  `KvSearch` adds search order and the map; `KvRbTree` is the pointer code.
* **The red-black tree of the coroutine library** (`SleepOrder`, `SleepTree`), with null for the
  missing children and removal by splicing, on the same theory, and **the scheduler's sleep set**
  on top of it (`Scheduler`), over whole runs of sleeps and wakes (`SleepRuns`).
* **The hash engine** (`HashChains`, `HashTable`): chains of node objects, a wrapping hash, and
  doubling that reuses the nodes.
* **The array engine** (`ArrayEngine`), the three engines side by side over runs of commands
  (`Engines`), and the text protocol with its client (`KvProtocol`).
* **The gateway.** `GatewayModel` is the session machine on values with its invariant,
  `GatewayTrace` says which traces of events are lawful and what that means for a single relayed
  payload, and `GatewayRuns` proves the theorems about whole runs and about epoll batches.
  `GatewayOrigins` traces every relayed payload back to the datagram or arrival it came from,
  `GatewayDispatch` says which steps a datagram, a reply, a ready descriptor and a batch amount to,
  `GatewayEffects` what each step does field by field and what a datagram puts on the wire,
  `GatewayDescriptors` that no descriptor leaks, and `GatewayStalls` follows a session whose queue
  is stuck.
  `SessionManager`, `Gateway` and `EventLoop` are the code that updates tables in place, loops over
  datagrams and messages and takes blocks from the pool; their methods are proved to be runs of the
  machine. `MemoryPool` and `TunnelProtocol` are the block pool and the packet codec, `Circle` is
  the search for a free number on a counter that wraps.

What the outside decides is left open: the descriptor `socket` returns is any that is not open, the
gateway's clock does not run backwards, KCP completes any messages from a datagram and sends only to
the session's peer, the key-value client may drop and reopen its connection during a CONNECT, and the
table of sessions is walked in any order. What waits in a socket, and which messages KCP completes
from it, are parameters of the handler that reads it. Allocation succeeds.

Where the code differs from what its names or comments suggest, the model follows the code:

* A SET of a present key is ignored by the red-black engine but counted (`Engines.RunTree`),
  overwrites in the hash engine, and is stored a second time by the array engine
  (`ArrayEngine.DuplicateShadows`, `ArrayEngine.Resurrect`).
* A DEL that meets an empty bucket leaves the hash engine's mutex held (`HashTable.HashTable.Delete`,
  `Engines.LockingRun`).
* The initial slots of the hash table are not cleared; the constructor takes them as empty.
* A registered session counts as idle since time 0 (`GatewayRuns.FreshSessionSpared`).
* A CONNECT whose socket cannot be opened ends the handler's loop as if the session were gone, but
  the session is not marked and keeps waiting; its target address is already written.
* A message too long for a pool block is reported as dropped but stays in KCP's queue, and from then
  on nothing of its session is relayed to the target any more (`GatewayStalls.StalledForGood`).
* Going to sleep removes whoever has the key of the last sleep (`Scheduler.StaleKey`). The clock is
  the time of day: if it is set back by a millisecond or more, that can be a sleeper nobody has woken
  (`Scheduler.LostSleeper`), and otherwise it never is (`SleepRuns.NobodyLost`).
* Above one second the timespec for epoll loses all but the last three digits of the microseconds
  (`Scheduler.NeverOversleeps`).

## Model

| member | source | states |
|---|---|---|
| `RedBlack.InsertFixup` | kv_store/kvstore_rbtree.c:120-165 | Ends with a valid tree (black root, no red-red edge, equal black heights) and leaves the nodes and their order unchanged; it ends because every turn moves the focus up. |
| `RedBlack.InsertStepKeepsInv` | kv_store/kvstore_rbtree.c:122-162 | Every case of the loop leaves at most the one red-red edge above the focus, and the focus strictly higher. |
| `RedBlack.InsertStepItems` | kv_store/kvstore_rbtree.c:122-162 | Every case keeps the nodes and their order. |
| `RedBlack.RotateItems` | kv_store/kvstore_rbtree.c:75-118 | A rotation either way keeps the nodes and their order. |
| `Deletion.DeleteStep` | kv_store/kvstore_rbtree.c:219-282 | Every case of the deletion loop keeps the one-black-node shortage at the focus, keeps the nodes and their order, and comes closer to the end. |
| `Deletion.DeleteFixup` | kv_store/kvstore_rbtree.c:217-285 | From any tree that is one black node short at the focus the loop ends with a valid tree that has the same nodes in the same order. |
| `Deletion.LiftKeepsInv` | kv_store/kvstore_rbtree.c:223-229 | A red sibling turned above the parent leaves a black sibling and the same shortage. |
| `Deletion.PushUpKeepsInv` | kv_store/kvstore_rbtree.c:231-233 | With two black nephews the shortage moves to the parent. |
| `Deletion.TurnKeepsInv` | kv_store/kvstore_rbtree.c:236-241 | With only the near nephew red, the far one is red after the rotation. |
| `Deletion.PayOffKeepsInv` | kv_store/kvstore_rbtree.c:243-248 | With the far nephew red, the last rotation pays for the missing black node. |
| `Deletion.Cut` | kv_store/kvstore_rbtree.c:300-333 | Cutting out a node with at most one child, with the fixup if it was black, gives a valid tree without exactly that node. |
| `TreeHeight.HeightBound` | kv_store/kvstore_rbtree.c:340-364 | A valid tree of n nodes has height at most 2 log2 (n + 1). |
| `RedBlack.LeftmostItem` | kv_store/kvstore_rbtree.c:46-51 | The walk to the left ends at the first node in order. |
| `TreeLayout.RotateLeftCells` | kv_store/kvstore_rbtree.c:75-95 | A left rotation changes exactly the links of the four objects around the node, in the way the source writes them. |
| `TreeLayout.RotateRightCells` | kv_store/kvstore_rbtree.c:98-118 | The same for a right rotation. |
| `TreeLayout.AttachCells` | kv_store/kvstore_rbtree.c:197-212 | Hanging in a new node changes its parent's link and nothing else. |
| `TreeLayout.SpliceCells` | kv_store/kvstore_rbtree.c:300-313 | Cutting out a node changes its child's parent link and its parent's child link and nothing else. |
| `TreeLayout.SubstituteCells` | kv_store/Ntyco/nty_tree.h:540-551 | A node taking over another one's links changes the parent's link and the parent links of the children and nothing else. |
| `TreeLayout.PaintCells` | kv_store/kvstore_rbtree.c:120-165 | Painting a node, or storing another entry in it, changes that node's own fields only. |
| `KvSearch.FindAgrees` | kv_store/kvstore_rbtree.c:340-364 | A search finds a node exactly when the map has the key, and then its value. |
| `KvSearch.PutRefines` | kv_store/kvstore_rbtree.c:168-215 | Insertion keeps search order and balance; it adds exactly the binding, or leaves the tree unchanged if the key is present. |
| `KvSearch.EraseRefines` | kv_store/kvstore_rbtree.c:289-336 | Deletion of a present key, with or without two children, keeps search order and balance and removes exactly that key from the map. |
| `KvSearch.EraseEntries` | kv_store/kvstore_rbtree.c:294-336 | The entries left are the old ones in order without the deleted one, although with two children the successor's node is the one cut out. |
| `KvSearch.OverwriteRefines` | kv_store/kvstore_rbtree.c:485-502 | Overwriting a value in place changes that one binding of the map. |
| `KvSearch.FindIsShort` | kv_store/kvstore_rbtree.c:340-364 | A search among n bindings makes at most 2 log2 (n + 1) comparisons. |
| `KvRbTree.RbTree.constructor` | kv_store/kvstore_rbtree.c:380-394 | An empty engine stands for the empty map. |
| `KvRbTree.RbTree.LeftRotate` | kv_store/kvstore_rbtree.c:75-95 | What each of the links around the node is afterwards. |
| `KvRbTree.RbTree.LeftRotateAt` | kv_store/kvstore_rbtree.c:75-95 | On the node objects of a tree it is the left rotation of the tree at that node; all links stay consistent. |
| `KvRbTree.RbTree.RightRotate` | kv_store/kvstore_rbtree.c:98-118 | What each of the links around the node is afterwards. |
| `KvRbTree.RbTree.RightRotateAt` | kv_store/kvstore_rbtree.c:98-118 | The right rotation of the tree at that node; all links stay consistent. |
| `KvRbTree.RbTree.InsertFixup` | kv_store/kvstore_rbtree.c:120-165 | The loop over node objects computes the fixup of the tree they store, parent links included. |
| `KvRbTree.RbTree.DeleteFixup` | kv_store/kvstore_rbtree.c:217-285 | The same for deletion, where the focus may be the sentinel with a borrowed parent link. |
| `KvRbTree.RbTree.Insert` | kv_store/kvstore_rbtree.c:168-215 | The objects afterwards store the tree with the new node, or the old tree if the key was there. |
| `KvRbTree.RbTree.Mini` | kv_store/kvstore_rbtree.c:46-51 | The leftmost node below the given one. |
| `KvRbTree.RbTree.Successor` | kv_store/kvstore_rbtree.c:60-72 | The next node in key order, or the sentinel after the last one, whether it lies below or above. |
| `KvRbTree.RbTree.Delete` | kv_store/kvstore_rbtree.c:289-336 | The objects afterwards store the tree without the node's key; the object returned left the tree and carries the deleted entry. |
| `KvRbTree.RbTree.Search` | kv_store/kvstore_rbtree.c:340-364 | The node with the key, or the sentinel exactly when the map lacks it; the number of comparisons the loop makes is that of the search in the tree, at most 2 log2 (n + 1). |
| `KvRbTree.RbTree.Set` | kv_store/kvstore_rbtree.c:424-451 | Adds the binding if the key is new, otherwise changes nothing; the counter goes up either way. |
| `KvRbTree.RbTree.Get` | kv_store/kvstore_rbtree.c:453-462 | The map's value, or none. |
| `KvRbTree.RbTree.Del` | kv_store/kvstore_rbtree.c:465-482 | Removes exactly the key; -1 and no change if it is missing. |
| `KvRbTree.RbTree.Modify` | kv_store/kvstore_rbtree.c:485-502 | Replaces the value of a present key; -1 and no change if it is missing. |
| `HashChains.SlotIsPoly` | kv_store/hash.c:52-63 | The wrapping 32-bit fold picks the same slot as the unbounded polynomial in 33, for every size that divides 2^32. |
| `HashChains.TableSlotIsPoly` | kv_store/hash.c:52-63 | Every size a table can have is such a size. |
| `HashChains.SlotDoubles` | kv_store/hash.c:75-84 | In a table of twice the size a key is in its old slot or that many slots further. |
| `HashChains.Growth` | kv_store/hash.c:180-181 | Before a doubling the load is at most 0.7, afterwards it is again, and sizes stay the initial one doubled up to 2^30. |
| `HashChains.DoubleSound` | kv_store/hash.c:67-93 | After doubling every key is again in exactly one chain, once, at its slot. |
| `HashChains.DoubleRepresents` | kv_store/hash.c:67-93 | Doubling does not change the map. |
| `HashChains.PushChain` | kv_store/hash.c:201-205 | A new node at the head of its slot adds exactly its binding. |
| `HashChains.RemoveChain` | kv_store/hash.c:252-303 | Removing a node from its chain removes exactly its key. |
| `HashChains.OverwriteChain` | kv_store/hash.c:186-193 | Overwriting a node's value changes exactly its binding. |
| `HashChains.EmptyBucket` | kv_store/hash.c:246-250 | A bucket is empty if and only if no key of the map has its slot. |
| `HashTable.Hash` | kv_store/hash.c:52-63 | The accumulator loop computes the slot. |
| `HashTable.HashTable.constructor` | kv_store/hash.c:132-145 | An empty table of 1024 slots stands for the empty map. |
| `HashTable.HashTable.MoveNode` | kv_store/hash.c:78-82 | One node object goes to the head of its new chain; the rest of the old chain and all other new chains stay as they are. |
| `HashTable.HashTable.Resize` | kv_store/hash.c:67-93 | The node objects are reused and hang in a table of twice the size as doubling prescribes. |
| `HashTable.HashTable.Get` | kv_store/hash.c:213-236 | The map's value, or none. |
| `HashTable.HashTable.Put` | kv_store/hash.c:174-210 | Sets the binding, new or not; the size doubles exactly when one more binding would exceed the load limit; the mutex is released. |
| `HashTable.HashTable.Delete` | kv_store/hash.c:243-304 | Removes exactly the key, -1 if it is missing; the mutex stays held exactly when the bucket was empty. |
| `HashTable.HashTable.Modify` | kv_store/hash.c:354-381 | Replaces the value of a present key; -1 and no change if it is missing. |
| `ArrayEngine.ArrayStore.constructor` | kv_store/kvstore_array.c:6-19 | A table of holes stands for the empty map. |
| `ArrayEngine.ArrayStore.Set` | kv_store/kvstore_array.c:29-54 | Fills the first hole of the table, which is never above the mark; -1 exactly when there is none; for a new key this adds its binding to the map. |
| `ArrayEngine.ArrayStore.Get` | kv_store/kvstore_array.c:82-89 | What the first slot with the key holds, although only the slots below the mark are scanned. |
| `ArrayEngine.ArrayStore.Delete` | kv_store/kvstore_array.c:105-118 | Empties exactly the first slot with the key, also when it is stored twice, and answers 1 with no change if there is none; without duplicates this removes exactly the key from the map. |
| `ArrayEngine.ArrayStore.Modify` | kv_store/kvstore_array.c:143-157 | Overwrites exactly the first slot with the key, also when it is stored twice, and answers 1 with no change if there is none; without duplicates this changes exactly its binding. |
| `ArrayEngine.ReadAgrees` | kv_store/kvstore_array.c:82-89 | In a table without duplicates a scan answers what the map has. |
| `ArrayEngine.FullMeansMany` | kv_store/kvstore_array.c:34-38 | A full table without duplicates holds as many keys as it has slots. |
| `ArrayEngine.DuplicateShadows` | kv_store/kvstore_array.c:33-54 | After a SET of a key that is there, GET answers the new value exactly when the hole comes before the old slot, and deleting the key brings the other value back. |
| `ArrayEngine.Resurrect` | kv_store/kvstore_array.c:29-118 | SET, GET, DEL and GET of a stored key on the engine itself: the first GET answers the new value exactly when the hole comes before the old slot, and after the DEL the other value is back. |
| `Engines.RunTree` | kv_store/kvstore_rbtree.c:424-502 | Over every run of commands the counter is the number of keys plus the number of SETs that repeated a key, and GETs answer from a map that keeps first values. |
| `Engines.RunHash` | kv_store/hash.c:174-381 | Over every run of commands GETs answer as a plain map does up to and including the first DEL whose key shares its slot with no stored key, at the size the table has then; exactly after that one the mutex stays held. |
| `Engines.RunArray` | kv_store/kvstore_array.c:29-157 | Over every run that SETs only absent keys, with at most 1024 at a time and any other commands, GETs answer as a plain map does. |
| `Engines.Compare` | kv_store/kv_store.c:30-72 | Over every such run array and red-black engine answer alike and as a plain map does, and the hash engine gives exactly the same answers up to the first DEL that meets an empty bucket. |
| `Engines.HashDo` | kv_store/hash.c:174-381 | One command: the answer of a plain map, the table doubled exactly when the load test says so, and the mutex held afterwards exactly if a DEL met an empty bucket. |
| `Engines.ServedStops` | kv_store/hash.c:243-250 | What a run is served: everything up to and including the first DEL that meets an empty bucket, or all of it. |
| `Engines.LockingRun` | kv_store/hash.c:243-250 | From an empty store a DEL of any key locks the engine, so that the GET behind it is not answered. |
| `Engines.HarmlessMiss` | kv_store/hash.c:252-304 | A DEL of a missing key does not lock if another key has its slot; two keys do so in a table of any size. |
| `Engines.SetsAgree` | kv_store/kvstore_rbtree.c:182-184 | Red-black and hash engine agree after a SET if and only if the key is new or keeps its value. |
| `KvProtocol.SplitToken` | kv_store/kv_store.c:76-92 | The words of the message between its spaces, in order. |
| `KvProtocol.StrTok` | kv_store/kv_store.c:84-89 | The bounds of the next word, if there is one. |
| `KvProtocol.TokensSkip` | kv_store/kv_store.c:84-89 | A space before the words of a message changes nothing. |
| `KvProtocol.TokensTake` | kv_store/kv_store.c:84-89 | A word up to the next space or the end is the first word, and the others are those of the rest. |
| `KvProtocol.Understood` | gateway/kv_client.cpp:103-123 | The words of a command the client builds mean that command. |
| `KvProtocol.KvServer.Execute` | kv_store/kv_store.c:110-160 | Changes the map as the command says; a GET answers the value, as far as it fits 1023 characters, or NO EXIST exactly when the key is missing; a DEL or MOD answers SUCCESS exactly when the key was there and ERROR exactly when it was not. |
| `KvProtocol.KvServer.ParserProtocol` | kv_store/kv_store.c:94-163 | The same, from a list of words that begins with a command and has enough arguments. |
| `KvProtocol.KvServer.Request` | kv_store/kv_store.c:165-183 | The same, from the text of a message. |
| `KvProtocol.KvClient.Set` | gateway/kv_client.cpp:103-107 | Sets the binding in the server's engine and reports success. |
| `KvProtocol.KvClient.Get` | gateway/kv_client.cpp:109-117 | None exactly when the key is missing or its value is the text NO EXIST; otherwise the value, as far as it fits the server's buffer, without exactly the CR and LF it ends in. |
| `KvProtocol.Trim` | gateway/kv_client.cpp:113-114 | What is left is the longest beginning that does not end in CR or LF. |
| `KvProtocol.Printed` | kv_store/kv_store.c:122-127 | A string of up to 1023 characters is printed whole, a longer one up to there. |
| `KvProtocol.KvClient.Del` | gateway/kv_client.cpp:119-123 | Removes the key; true exactly when it was there. |
| `KvProtocol.RoundTrip` | gateway/kv_client.cpp:103-117 | A value comes back if and only if it does not end in CR or LF. |
| `KvProtocol.SetThenGet` | gateway/kv_client.cpp:103-117 | The same through client, tokenizer, server and hash engine, on any store with room for the binding; the store is the old one with the binding set. |
| `TunnelProtocol.ParseWire` | common/tunnel_protocol.h:67-85 | Parsing recovers every packet that was packed, whatever follows it in the buffer. |
| `TunnelProtocol.ParseAccepts` | common/tunnel_protocol.h:67-85 | A buffer is accepted as a packet if and only if it begins with that packet's bytes, so what is handed out lies inside it. |
| `TunnelProtocol.PackConnect` | common/tunnel_protocol.h:26-31 | Writes the packet's bytes and nothing behind them. |
| `TunnelProtocol.PackData` | common/tunnel_protocol.h:33-39 | Writes the packet's bytes, length in network order, and nothing behind them. |
| `TunnelProtocol.WireLayout` | common/tunnel_protocol.h:10-45 | The bytes of each packet: its type, the length of a route in one byte or of a payload in two with the more significant one first, then route or payload. |
| `TunnelProtocol.RegisteredLayout` | common/tunnel_protocol.h:51-56 | Type 5 and the number in four bytes, the most significant one first. |
| `TunnelProtocol.ReadWritten` | common/tunnel_protocol.h:51-64 | The conversation number of an answer is read back as it was written. |
| `TunnelProtocol.ReadConnectRoute` | common/tunnel_protocol.h:87-93 | Copies the route, cut to the buffer, with a terminator. |
| `TunnelProtocol.Text` | gateway/gateway.cpp:61-64 | A route is used as text, up to its first zero byte. |
| `MemoryPool.MemoryPool.constructor` | gateway/mem_pool.h:13-19 | All 4096 blocks are on the list, none is out. |
| `MemoryPool.MemoryPool.Alloc` | gateway/mem_pool.h:21-29 | Takes the head of the list; null exactly when all blocks are out. |
| `MemoryPool.MemoryPool.Free` | gateway/mem_pool.h:31-36 | Puts the block back at the head; null is ignored. |
| `MemoryPool.PushFree` | gateway/mem_pool.h:31-36 | The list stays acyclic, without duplicates and apart from the blocks that are out. |
| `MemoryPool.PopFree` | gateway/mem_pool.h:21-29 | The same for taking a block. |
| `MemoryPool.Conservation` | gateway/mem_pool.h:13-36 | Free and outstanding blocks are always 4096 together. |
| `GatewayTrace.RelayedToTarget` | gateway/gateway.cpp:77-84 | In a lawful trace payload goes to a target only from the endpoint the session was issued to, to the address fixed when its descriptor was opened, with no mark, teardown or change of hands in between. |
| `GatewayTrace.RelayedToClient` | gateway/gateway.cpp:161-187 | What arrived on a descriptor goes only to the endpoint of the session that opened it and has kept it since. |
| `GatewayTrace.DistinctFds` | gateway/session_manager.cpp:89-99 | Live sessions never share a descriptor. |
| `GatewayModel.InitInv` | gateway/session_manager.h:35-43 | The invariant holds at the start. |
| `GatewayModel.AddInv` | gateway/session_manager.cpp:51-56 | A new session under an unused number keeps the invariant. |
| `GatewayModel.AddTicket` | gateway/session_manager.cpp:28-33 | Before the counter first wraps, each number handed out is above all earlier ones. |
| `GatewayModel.MarkInv` | gateway/session_manager.cpp:114-117 | Marking keeps the invariant: the list to erase is exactly the dying sessions, each once. |
| `GatewayModel.OpenInv` | gateway/session_manager.cpp:89-107 | Opening a target keeps the invariant: the descriptor index is the exact inverse of the sessions' descriptors. |
| `GatewayModel.FlushInv` | gateway/session_manager.cpp:122-136 | Teardown keeps the invariant and leaves exactly the sessions that were not dying, with the tick armed if any are left. |
| `GatewayModel.FlushCloses` | gateway/session_manager.cpp:122-136 | Teardown closes exactly the descriptors of the sessions that were dying, and takes exactly them out of the index. |
| `GatewayModel.FeedInv` | gateway/gateway.cpp:134-139 | A datagram for a session keeps the invariant. |
| `GatewayModel.HandleInv` | gateway/gateway.cpp:48-101 | Every kind of message keeps the invariant, also when the route is unknown or no socket is to be had. |
| `GatewayModel.ReplyInv` | gateway/gateway.cpp:161-187 | A reply keeps the invariant; it adds exactly one event, which sends the payload to the endpoint of the session that owns the descriptor. |
| `GatewayModel.SweepInv` | gateway/session_manager.cpp:139-153 | A sweep keeps the invariant, in whatever order the table is walked. |
| `GatewayModel.SweepMarksExactly` | gateway/session_manager.cpp:139-153 | A sweep marks a session if and only if a second has passed since the last sweep and the session's last traffic is more than the idle time ago. |
| `GatewayModel.RegisterInv` | gateway/session_manager.cpp:39-67 | A REGISTER keeps the invariant; in particular at most one session per endpoint waits for its CONNECT. |
| `GatewayModel.RegisterAgain` | gateway/session_manager.cpp:43-49 | The session found does not depend on the order of the walk, and a repeated REGISTER changes nothing but the trace. |
| `GatewayModel.RegisterWaits` | gateway/session_manager.cpp:39-67 | After a REGISTER the endpoint has a waiting session, the answer carries its number, and the next REGISTER gets the same one. |
| `Circle.ProbeFindsFree` | gateway/session_manager.cpp:28-33 | With fewer than 2^32 numbers in use the search ends at a free one after passing only used ones, across the wrap. |
| `GatewayRuns.StepInv` | gateway/gateway.cpp:103-197 | Every event keeps the invariant. |
| `GatewayRuns.RunInv` | gateway/event_loop.cpp:60-85 | It holds in every state any run of events can reach. |
| `GatewayRuns.RunTrace` | gateway/session_manager.cpp:28-55 | Every run leaves a lawful trace, and before the counter first wraps no number is issued twice, also after teardown. |
| `GatewayRuns.StepStable` | gateway/event_loop.cpp:66-81 | No event but the teardown removes a session or takes its descriptor, endpoint or target away. |
| `GatewayRuns.BatchStable` | gateway/event_loop.cpp:66-81 | The same for a whole batch of events. |
| `GatewayRuns.BatchKeepsDescriptors` | gateway/event_loop.cpp:60-84 | At any point of a batch a session's descriptor is open, is not the key-value client's, and leads to the session that owned it when the batch was collected. |
| `GatewayRuns.MarkedInTime` | gateway/session_manager.cpp:139-153 | With sweep calls at most a given distance apart, a session without traffic is marked less than that distance and 1000 ms after the later of registration or last call and the end of its idle time. |
| `GatewayRuns.FreshSessionSpared` | gateway/session_manager.cpp:51-56 | A session just registered is reaped by the next sweep that is due if and only if the clock itself is past the idle time, because its last activity is 0. |
| `GatewayEffects.StepDone` | gateway/gateway.cpp:48-197 | What each event does, field by field and with the event it adds to the trace: REGISTER, datagram, message, note of the time, reply, tick and teardown. |
| `GatewayEffects.HandleDone` | gateway/gateway.cpp:48-101 | A message of a session: DATA goes out on its descriptor to its target and the time is noted; CLOSE marks it; CONNECT opens it; DATA before a CONNECT, a second CONNECT and everything else is ignored. |
| `GatewayEffects.ConnectDone` | gateway/gateway.cpp:57-76 | An unknown route marks the session and puts it on the list; without a socket the session only gets its target; with one it is open, indexed and told in the trace. |
| `GatewayEffects.DrainRelays` | gateway/gateway.cpp:144-155 | Draining the queue of a connected session takes the messages up to one that exceeds 2048 bytes, an empty one or a CLOSE, and puts exactly the payloads of the DATA messages among them on the wire, in queue order. |
| `GatewayEffects.HeadsConv` | third_party/kcp/ikcp.c:109-121 | The number read from a segment is the one whose four bytes, least significant first, it begins with. |
| `GatewayEffects.SegmentDelivered` | gateway/gateway.cpp:122-133 | The byte 4 registers; a datagram of 24 bytes or more that begins with the number of a session, least significant byte first, is delivered to it exactly if the sender owns it and it is not dying; everything else is dropped. |
| `GatewayEffects.DatagramRelayed` | gateway/gateway.cpp:103-159 | A datagram of a connected session that completes DATA messages: each payload goes to the session's target, in order, and nothing else is sent. |
| `GatewayEffects.FirstNumber` | gateway/session_manager.h:35-43 | The first session gets number 1000. |
| `GatewayDescriptors.NoLeaks` | gateway/session_manager.cpp:89-136 | Over every run, a descriptor is open exactly if it is a session's, is the key-value client's, or was open from the start. |
| `GatewayDescriptors.StepAccounted` | gateway/session_manager.cpp:89-136 | Every event keeps that account. |
| `GatewayOrigins.StepAdds` | gateway/gateway.cpp:48-197 | What an event may add to the trace: only handling a queued message sends to a target, and then what that message carries; only an arrival on a descriptor sends to an endpoint, and then what arrived. |
| `GatewayOrigins.OriginOfMessage` | gateway/gateway.cpp:122-142 | Over every run, each message in a session's queue was completed by an earlier datagram of the session's endpoint for that session, since the number was given out. |
| `GatewayOrigins.CausedBy` | gateway/event_loop.cpp:60-85 | Over every run, each event of the trace was added by one step of the run. |
| `GatewayOrigins.RunToTarget` | gateway/gateway.cpp:57-84 | Over every run, payload on a target descriptor is what an earlier datagram carried that came from the endpoint the session was issued to, after it was issued; it goes to the address fixed when the descriptor was opened, with no mark, teardown or change of hands in between. |
| `GatewayOrigins.RunToClient` | gateway/gateway.cpp:161-187 | Over every run, what is sent to an endpoint arrived on the descriptor of the session issued to it, in the very step that sends it, with no mark, teardown or change of hands since. |
| `GatewayDispatch.BatchIsFaithful` | gateway/event_loop.cpp:60-84 | However the descriptors of a batch are dispatched, one that was a session's when the batch was collected is that session's when its turn comes. |
| `GatewayDispatch.JoinedRun` | gateway/event_loop.cpp:66-81 | Pieces of a run that start where the last one ended are one run. |
| `GatewayDispatch.Cut` | gateway/gateway.cpp:163-180 | A reply of up to 2045 bytes is relayed whole, a longer one up to there. |
| `GatewayDispatch.Clip` | gateway/gateway.cpp:109-111 | A datagram of up to 2048 bytes is read whole, a longer one up to there. |
| `GatewayStalls.StalledForGood` | gateway/gateway.cpp:144-155 | Over every run, once the first queued message of a session exceeds a block nothing of that session goes to a target until it is torn down. |
| `GatewayStalls.StepStalled` | gateway/gateway.cpp:144-155 | Every event leaves such a session as stuck as it was while it is there, and handles none of its messages. |
| `GatewayStalls.DrainStalls` | gateway/gateway.cpp:144-155 | Draining that ends because a message is too long leaves the session in that state. |
| `SessionManager.SessionManager.constructor` | gateway/session_manager.cpp:14-16 | The tables start out empty and the invariant holds. |
| `SessionManager.SessionManager.AllocConv` | gateway/session_manager.cpp:28-33 | The loop ends with the first unused number from the counter on. |
| `SessionManager.SessionManager.FindPending` | gateway/session_manager.cpp:43-49 | Finds a waiting session of the endpoint exactly when there is one. |
| `SessionManager.SessionManager.RegisterClient` | gateway/session_manager.cpp:39-67 | Does to the tables, the tick and the trace what a REGISTER does in the machine, and keeps the invariant. |
| `SessionManager.SessionManager.SendRegistered` | gateway/session_manager.cpp:64-66 | The five bytes sent are type 5 and the number in network order, the endpoint reads it back, and that is what the trace records. |
| `SessionManager.SessionManager.Lookup` | gateway/session_manager.cpp:70-86 | True exactly for a known number used by its owner. |
| `SessionManager.SessionManager.OpenTarget` | gateway/session_manager.cpp:89-107 | With a new descriptor the session is opened; without one nothing changes. |
| `SessionManager.SessionManager.ByFd` | gateway/session_manager.cpp:109-112 | The session of a descriptor, if it has one. |
| `SessionManager.SessionManager.MarkDying` | gateway/session_manager.cpp:114-117 | Marks the session and puts it on the list. |
| `SessionManager.SessionManager.FlushTeardown` | gateway/session_manager.cpp:122-136 | Erases everything on the list and nothing else, closes exactly the descriptors of those sessions and takes them out of the index, and sets the tick. |
| `SessionManager.SessionManager.SweepIdle` | gateway/session_manager.cpp:139-153 | Marks exactly the idle sessions, once each, in the order of the walk, and does nothing before a second has passed. |
| `Gateway.Gateway.Connect` | gateway/gateway.cpp:62-76 | The route is asked for once; without an address the session is marked; with one but without a socket the handler gives up without marking it; otherwise it is opened. |
| `Gateway.Gateway.HandleTunnelMsg` | gateway/gateway.cpp:48-101 | DATA of a connected session sends exactly its payload to the target and notes the time; CLOSE marks the session; a first CONNECT asks for its route, as text, and acts on the answer; everything else changes nothing; tells whether the session is given up. |
| `Gateway.Gateway.Drain` | gateway/gateway.cpp:144-155 | The loop handles the queued messages in order, each as one step, and stops exactly for one of four reasons, each with its own answer: nothing is left (-1), the next message is too long for a block and stays queued (-3), the last message was empty (0), or its handler gave the session up (its length). For a connected session the trace grows by exactly the payloads of the DATA messages handled. |
| `Gateway.Gateway.Input` | gateway/gateway.cpp:134-139 | The messages the datagram completes join the end of the session's queue, in order. |
| `Gateway.Gateway.Deliver` | gateway/gateway.cpp:134-157 | KCP is fed with the datagram, the queue is drained, and the time is noted again exactly when the session was not given up; the pool ends up as it was. |
| `Gateway.Gateway.HandlePacket` | gateway/gateway.cpp:122-157 | A REGISTER registers and does nothing else; a datagram that is long enough and belongs to a session that is not dying is delivered to that session; every other one changes nothing; the block goes back to the pool. |
| `Gateway.Gateway.HandleTunnelDatagram` | gateway/gateway.cpp:103-159 | Every waiting datagram, cut to a block, is handled in order, each from the state the one before left; together that is one run of the machine without teardown; the free list ends up as it was, and never more than two blocks were out. |
| `Gateway.Gateway.Wrap` | gateway/gateway.cpp:180-182 | The bytes of the DATA packet fit a block and are parsed back to the reply. |
| `Gateway.Gateway.Relay` | gateway/gateway.cpp:178-187 | A reply is one step of the machine. |
| `Gateway.Gateway.HandleTargetReply` | gateway/gateway.cpp:161-197 | One event per reply, in order, to the session's endpoint, with the whole reply up to 2045 bytes and the first 2045 of a longer one; none for a dying session; the free list ends up as it was, and never more than two blocks were out. |
| `EventLoop.EventLoop.OnTimer` | gateway/event_loop.cpp:70-76 | The tick is one sweep of the machine with the loop's idle time. |
| `EventLoop.EventLoop.Dispatch` | gateway/event_loop.cpp:66-81 | A ready descriptor amounts to: all datagrams of the tunnel in order, one sweep, all replies in order through the session that owns the descriptor unless it is dying, or nothing for a descriptor that is nobody's. |
| `EventLoop.EventLoop.DispatchAll` | gateway/event_loop.cpp:66-81 | Every descriptor of the batch is dispatched in order, each from the state the one before left, and one that was a session's when the batch was collected is served through that session. |
| `EventLoop.EventLoop.RunBatch` | gateway/event_loop.cpp:60-84 | One turn is the whole batch followed by the teardown exactly if something was marked, as one run of the machine; afterwards nothing waits to be erased and the tick is armed exactly when there are sessions. |
| `EventLoop.EventLoop.Run` | gateway/event_loop.cpp:60-85 | Every batch has its turn, each from the state the one before left; from the start the trace stays lawful and the pool full, until all 2^32 numbers could be in use. |
| `SleepOrder.PutRefines` | kv_store/Ntyco/nty_tree.h:579-606 | Insertion keeps search order and balance and adds exactly the element, or changes nothing if its key is taken. |
| `SleepOrder.ExtractRefines` | kv_store/Ntyco/nty_tree.h:511-576 | Removal, also where the successor takes over the node's links and colour, keeps search order and balance and removes exactly the element. |
| `SleepOrder.FindAgrees` | kv_store/Ntyco/nty_tree.h:609-623 | A search finds a node exactly when the key is taken, and then its owner. |
| `SleepOrder.EndsAreExtremes` | kv_store/Ntyco/nty_tree.h:690-703 | The walks to the left and to the right end at the least and the greatest key. |
| `SleepTree.SleepTree.RotateLeft` | kv_store/Ntyco/nty_tree.h:325-343 | What each of the links around the node is afterwards, null children included. |
| `SleepTree.SleepTree.RotateRight` | kv_store/Ntyco/nty_tree.h:346-364 | The same to the other side. |
| `SleepTree.SleepTree.InsertColor` | kv_store/Ntyco/nty_tree.h:390-431 | The loop over node objects computes the insertion fixup of the tree they store. |
| `SleepTree.SleepTree.RemoveColor` | kv_store/Ntyco/nty_tree.h:433-509 | The loop computes the deletion fixup, where the focus may be null and its parent is carried along. |
| `SleepTree.SleepTree.Splice` | kv_store/Ntyco/nty_tree.h:520-558 | The successor is cut out and stands in the node's place; returned are the place and the colour that are short of a node. |
| `SleepTree.SleepTree.TakeOver` | kv_store/Ntyco/nty_tree.h:540-551 | What each of the links around the replaced node is afterwards. |
| `SleepTree.SleepTree.Insert` | kv_store/Ntyco/nty_tree.h:579-606 | Adds the element to the set, or returns the owner of its key and changes nothing. |
| `SleepTree.SleepTree.Remove` | kv_store/Ntyco/nty_tree.h:511-576 | Removes exactly the element from the set. |
| `SleepTree.SleepTree.Find` | kv_store/Ntyco/nty_tree.h:609-623 | The owner of the key, or null. |
| `SleepTree.SleepTree.MinMax` | kv_store/Ntyco/nty_tree.h:690-703 | The element with the least or the greatest key, or null exactly when the set is empty. |
| `Circle.FirstFreeIsLeast` | kv_store/Ntyco/nty_schedule.c:97-106 | Away from the wrap the key found is the least unused one at or after the deadline. |
| `Scheduler.StaleKey` | kv_store/Ntyco/nty_schedule.c:90-93 | The removal by the key of the last sleep evicts no other sleeper if and only if that key is free or the coroutine's own. |
| `Scheduler.Elapsed` | kv_store/Ntyco/nty_coroutine.h:274-276 | The microseconds that added to the birth of the scheduler give the time, on 64-bit words. |
| `Scheduler.DueAfter` | kv_store/Ntyco/nty_schedule.c:88-95 | Away from the wrap a sleep is over 1000 microseconds per millisecond after it begins. |
| `Scheduler.Schedule.RemoveByKey` | kv_store/Ntyco/nty_schedule.c:90-93 | Whoever has the key of the coroutine's last sleep leaves the set; afterwards the coroutine is not in the tree. |
| `Scheduler.Schedule.Enqueue` | kv_store/Ntyco/nty_schedule.c:97-106 | The retry loop ends; the coroutine joins the set under the first free key from its deadline on. |
| `Scheduler.Schedule.SleepDown` | kv_store/Ntyco/nty_schedule.c:87-106 | The sleepers afterwards are the old ones without the key of the last sleep and, unless the time is 0, the coroutine under the first free key from its deadline on; with time 0 it keeps the present time for a key. |
| `Scheduler.LeastAfterDeadline` | kv_store/Ntyco/nty_schedule.c:97-106 | Away from the wrap the new key is the least one at or after the deadline that no other sleeper has. |
| `Scheduler.LostSleeper` | kv_store/Ntyco/nty_schedule.c:87-106 | If the clock is set back by a millisecond or more, for any two such readings, a sleeper nobody woke can be gone from the set: another coroutine that was woken before goes to sleep again and evicts it by its stale key. |
| `SleepRuns.NobodyLost` | kv_store/Ntyco/nty_schedule.c:87-106 | Over every run of sleeps of some time and wakes, away from the 64-bit wrap, in which no sleep begins a millisecond or more before an earlier wake by the clock: whoever leaves the set is woken as the earliest one due or goes to sleep again itself. |
| `SleepRuns.SleepsThrough` | kv_store/Ntyco/nty_schedule.c:87-259 | Over every such run: whoever goes to sleep is in the set at every point until it is woken or goes to sleep again, and it is never woken before its time is over. |
| `SleepRuns.RunSettled` | kv_store/Ntyco/nty_schedule.c:87-106 | The invariant behind it: a sleeper is the only coroutine whose last key is its key, and whoever does not sleep has a key the clock has passed. |
| `SleepRuns.SleepKeeps` | kv_store/Ntyco/nty_schedule.c:90-106 | Going to sleep keeps that invariant, evicts nobody else and gives a key not before the deadline. |
| `SleepRuns.WakeKeeps` | kv_store/Ntyco/nty_schedule.c:248-259 | So does waking, which takes nobody but the earliest one due. |
| `SleepRuns.Drive` | kv_store/Ntyco/nty_schedule.c:87-259 | Any calls on the scheduler itself, in any order and with any readings of the clock, are a run of these states; from a new scheduler, ordinary calls by a steady clock are one that loses nobody. |
| `Scheduler.Schedule.Expired` | kv_store/Ntyco/nty_schedule.c:248-259 | Returns and removes the earliest sleeper if its time has come, with exactly its key and its node; null and no change exactly when nobody is due. |
| `Scheduler.Schedule.MinTimeout` | kv_store/Ntyco/nty_schedule.c:268-281 | The gap to the earliest sleeper, 0 if it is due, three seconds if nobody sleeps. |
| `Scheduler.NeverOversleeps` | kv_store/Ntyco/nty_schedule.c:289-295 | The time computed never exceeds the gap; it equals it if and only if the gap is below a second or its fraction of a second is below a millisecond, and otherwise falls short by exactly the whole milliseconds of that fraction. |
| `Scheduler.Schedule.PollTime` | kv_store/Ntyco/nty_schedule.c:283-298 | When nothing is ready, the timespec of the gap to the earliest sleeper, three seconds when nobody sleeps, and no time at all when something is ready or due; never past the time of any sleeper. |

## Left out

- KCP itself, sockets, epoll, timerfd and the clock: only a queue of messages per session, a fixed peer, descriptors, batches and a monotone clock are modelled.
- Coroutine switching, the hooked socket calls and the scheduler's main loop with its status bits, except for the sleeping bit.
- Freeing of keys, values, nodes and sessions: strings are values, and an object that left a structure is simply not part of it any more.
- The destroy functions of the engines and the traversal that prints a tree.
- Splay trees and queue macros, `RB_NFIND`, `RB_NEXT` and `RB_PREV`.
- Session pointers are conversation numbers: the table never moves a session while it is in it, so a pointer and the number lead to the same place.
- Text commands with missing words, unknown names or more than 128 words, partial reads and the silence that ends a reply.
- The kvstore's network drivers, the tunnel client, the load test and the echo server.
- The address of a route is any address or none; the gateway's lookup is not joined to the modelled key-value client.
- The load test of the hash engine is taken over the reals; in double precision it decides the same, because 0.7 times a table size is never an integer.
- HashTable.HashTable.Put: stated for tables of up to 2^30 slots, the largest an `int` can double to.
- EventLoop.EventLoop.OnTimer: the tick also lets KCP update the sessions that are not dying, which repeats or acknowledges what was sent before and changes none of the tables; that is not part of the step.
- SessionManager.SessionManager.RegisterClient: stated for fewer than 2^32 sessions, because with all numbers in use the source loops forever.
- SleepRuns.NobodyLost: stated for sleeps of some time, which are the only ones the two callers pass on (kv_store/Ntyco/nty_coroutine.c:271, kv_store/Ntyco/nty_socket.c:78), and for deadlines that do not wrap around 64 bits.
- Scheduler.Schedule.SleepDown: stated for fewer than 2^64 sleepers, because with all keys in use the source loops forever.
