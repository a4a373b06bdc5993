# Verified models of the data-structure and concurrency programs

Dafny models of the hard parts of this collection, each proved against a specification:

- **LRU caches.** `LinearProbing` (the open-addressing table with tombstone-free deletion), `IndexList` (the
  recency list threaded through node indices), `LruSpec` (the policy on its own), `CacheState` (how the three
  structures together stand for a sequence of entries), `PacketCache` and `EmbeddedCache` (the two caches as classes).
- **Memory pools.** `BlockList` (block lists as values), `PoolRuns` (whole runs), `DllPool` and `ScanPool` (the
  pools as classes over headers in memory).
- **Linked lists.** `Floyd` (loop detection and repair) and `CloneList` (cloning with random pointers), on heap objects.
- **Concurrency.** `LockFreeStack`, `ThreadPool` and `BoundedBuffer`: state machines in which each lock-held section,
  compare-and-swap, notification and (possibly spurious) wake-up is one step, for any number of threads; `BufferCalls`
  states the buffer's runs in terms of arguments and results.
- **Algorithms.** `Fragmentation` (packets and reassembly), `ChannelLaws` (its promises over any channel),
  `NextPermutation`, `SignedNumbers` (its answers below 0) and `XorTrie`.

`Options` declares the option type that several of these use, `Tags` observations of runs by thread.

Check everything with `dafny verify dfyconfig.toml`.

## How the models read the programs

- Capacities, table sizes, header sizes and pool sizes are parameters; the hash is an arbitrary function into the
  table (`lruCache/packet/hash.h:4` asks for a table larger than the capacity). In the embedded cache, masking with a
  power of two minus one is the same as the remainder that the model takes.
- A struct inside a C array is a value in a Dafny array. Null links are -1. Both caches share one model of the table
  and one of the list, because their code for these is the same up to names.
- Branches that are proved unreachable (insertion into a full table, eviction from an empty cache) appear as an
  assertion that they are not taken.
- Size arithmetic in the pools and counters in fragment headers wrap around as in the original. Time is a parameter.
- Atomics are sequentially consistent. A node popped from the lock-free stack is never reused.
- Ints have 32 bits in two's complement: right shifts round down, `1 << 31` is the sign bit, and converting a wider
  value (of a 64-bit `long`) to an int keeps its low 32 bits.

Where the code does not do what one would expect, the model follows the code, shows an input and says exactly when the
expectation holds:

- `fixLoop` loses nodes exactly when the loop runs through the head of a longer list, and reports success for a single
  node without a loop (`Floyd.FixLoop`, `Floyd.LosesNode`).
- Rounding up to a multiple of 4 shrinks exactly the three largest requests, to zero (`ScanPool.Align4CanShrink`).
- A message comes back whole exactly if it has at least one and at most 65535 fragments. The empty message has no packets,
  and a longer one never comes back, whatever is delivered (`Fragmentation.SendInOrder`, `Fragmentation.EmptyMessage`,
  `Fragmentation.RunAnyLength`).
- `nextGreaterElement` gives the next greater number with the same digits exactly for arguments from -9 on, because the
  sign is permuted with the digits (`SignedNumbers.KeptExactly`, `SignedNumbers.NegativeShrinks`).
- `findMaximumXOR` ignores everything from the first change of sign on, so its result is the maximum exactly if no later
  pair has a larger one than all earlier pairs (`XorTrie.FindMaximumXor`, `XorTrie.MixedSigns`).
- A clone is a list of its own with the original's random links exactly if none of these leaves the list
  (`CloneList.CloneLinkedList`, `CloneList.LosesRandom`, `CloneList.CloneLinkedList2`, `CloneList.RandomAstray`).

## Model

| member | source | states |
|---|---|---|
| LinearProbing.SlotAt | lruCache/packet/hash.c:44 | the slot of a probe: the sum wrapped around the table at most once |
| LinearProbing.HasEmpty | lruCache/packet/hash.h:4 | a table larger than its contents has an empty slot |
| LinearProbing.ProbeFinds | lruCache/packet/hash.c:39-53 | probing ends on a node exactly when the represented map holds one for the key, and on that one |
| LinearProbing.RemovalIsExact | lruCache/packet/hash.c:70-97 | after a removal every other key is looked up to the same node as before and the removed key is absent |
| LinearProbing.InsertRepresents | lruCache/packet/hash.c:55-68 | putting a new key in the first empty slot of its probe keeps the probe-chain invariant and adds exactly that key |
| LinearProbing.RepairStarts | lruCache/packet/hash.c:81-84 | emptying a slot breaks only probe chains of entries in the cluster behind it |
| LinearProbing.CrossingEntry | lruCache/packet/hash.c:85-92 | an entry whose chain crosses a slot of the cluster lies in the part of the cluster behind that slot |
| LinearProbing.RepairPicksUp | lruCache/packet/hash.c:87-88 | lifting the next entry of the cluster keeps every other chain excused or whole |
| LinearProbing.RepairPutsBack | lruCache/packet/hash.c:89-91 | re-inserting it makes its own chain whole and spoils no other |
| LinearProbing.RepairEnds | lruCache/packet/hash.c:85-93 | at the end of the cluster no chain is broken any more |
| LinearProbing.HashClear | lruCache/packet/hash.c:14-18 | every slot is empty |
| LinearProbing.HashLookupNode | lruCache/packet/hash.c:39-53 | the node of the key in the represented map, or -1 when there is none |
| LinearProbing.HashInsert | lruCache/packet/hash.c:55-68 | stores in the first empty slot of the probe; fails, changing nothing, exactly on a full table |
| LinearProbing.HashRemove | lruCache/packet/hash.c:70-97 | the table then represents the same map without the key's node; reports whether the key was there |
| LinearProbing.CloseGap | lruCache/packet/hash.c:81-93 | deletion with re-insertion of the cluster keeps the chain invariant for all remaining nodes |
| LinearProbing.ReinsertCluster | lruCache/packet/hash.c:85-92 | the re-insertion loop terminates at the end of the cluster with all chains whole |
| LinearProbing.Reinsert | lruCache/packet/hash.c:87-91 | one round of that loop moves the boundary of the repaired part by one slot |
| IndexList.BypassUnlinks | lruCache/packet/lru_packet_cache.c:142-151 | the unlinking stores yield a doubly linked list of the same nodes without the one |
| IndexList.PrependLinks | lruCache/packet/lru_packet_cache.c:111-117 | the linking stores yield the list with the node in front |
| IndexList.Unlink | lruCache/packet/lru_packet_cache.c:142-151 | removes one node, keeps order and contents of all others and all nodes outside the list |
| IndexList.PushFront | lruCache/packet/lru_packet_cache.c:111-117 | the node becomes the head; contents and outside nodes unchanged |
| IndexList.MoveToHead | lruCache/packet/lru_packet_cache.c:23-47 | the node moves to the front and the others keep their relative order |
| LruSpec.ApplyWellFormed | lruCache/packet/lru_packet_cache.c:76-204 | a step keeps keys distinct and the size within the capacity |
| LruSpec.RunWellFormed | lruCache/packet/lru_packet_cache.c:76-204 | so does every run |
| LruSpec.StepFaithful | lruCache/packet/lru_packet_cache.c:76-204 | a step keeps entries ordered by last use, each with the value last put |
| LruSpec.RunFaithful | lruCache/packet/lru_packet_cache.c:76-204 | after every run keys are listed by their last use and carry the value last put |
| LruSpec.ApplyKeys | lruCache/packet/lru_packet_cache.c:76-204 | exactly which keys are there after a step: one put, one removed, or only the last one evicted by a new key in a full cache |
| LruSpec.RecentlyUsedStays | lruCache/packet/lru_packet_cache.c:49-120 | in every run a key just used stays until it is removed or as many other keys as the capacity have been used |
| LruSpec.PresentExactly | lruCache/packet/lru_packet_cache.c:76-204 | exactly which keys are there after a run, and which are ahead of which, from which operations used and dropped which keys: a key is gone as soon as as many others as the capacity are used after it and not dropped |
| LruSpec.KeptIfFew | lruCache/packet/lru_packet_cache.c:76-204 | a used key is kept while fewer other keys than the capacity are named |
| LruSpec.LastEntriesSnoc | lruCache/simple/lruCacheWithHashing.c:176-222 | a later entry replaces the earlier one of its key and becomes the most recent |
| LruSpec.PutIntoPrefix | lruCache/simple/lruCacheWithHashing.c:176-222 | putting into a full cache is putting into an unbounded one and cutting off the end |
| LruSpec.KeepsMostRecent | lruCache/simple/lruCacheWithHashing.c:176-222 | a run of puts leaves exactly the last entries of the most recently put keys, up to the capacity, in order |
| CacheState.FoundInView | lruCache/packet/lru_packet_cache.c:81 | the node the table finds is the one at the key's position in the abstract sequence |
| CacheState.StateEmpty | lruCache/packet/lru_packet_cache.c:6-20 | initialisation establishes the invariant with every node free |
| CacheState.StateMove | lruCache/packet/lru_packet_cache.c:83-88 | moving a node to the front keeps list, table and free nodes in step |
| CacheState.StateDetach | lruCache/packet/lru_packet_cache.c:139-154 | so does taking a node out of table and list |
| CacheState.StatePush | lruCache/packet/lru_packet_cache.c:94-118 | and filling a free node and entering it in both |
| PacketCache.Cache.constructor | lruCache/packet/lru_packet_cache.c:6-20 | an empty cache with all nodes free |
| PacketCache.Cache.Detach | lruCache/packet/lru_packet_cache.c:59-71 | removes one entry and leaves its node in neither list nor free stack |
| PacketCache.Cache.AllocateNode | lruCache/packet/lru_packet_cache.c:49-74 | a node is always found; only when none is free is exactly the last entry dropped |
| PacketCache.Cache.Refresh | lruCache/packet/lru_packet_cache.c:83-88 | the entry gets the new packet and moves to the front |
| PacketCache.Cache.Install | lruCache/packet/lru_packet_cache.c:94-119 | the new entry goes in front; insertion into the table cannot fail |
| PacketCache.Cache.Lookup | lruCache/packet/lru_packet_cache.c:81 | finds the node of the key's entry exactly when there is one |
| PacketCache.Cache.Release | lruCache/packet/lru_packet_cache.c:139-157 | removes one entry and returns its node to the free stack |
| PacketCache.Cache.CopyOut | lruCache/packet/lru_packet_cache.c:128-138 | copies the payload and its length, and fails exactly when the given buffer is too small |
| PacketCache.Cache.Put | lruCache/packet/lru_packet_cache.c:76-120 | succeeds exactly up to 1536 bytes; the first len bytes become the key's entry, in front, the others keep their order, and a new key in a full cache drops exactly the last one; a rejected put changes nothing |
| PacketCache.Cache.Get | lruCache/packet/lru_packet_cache.c:123-158 | succeeds exactly if the key is there and the given room suffices, hands out its packet, and takes the entry out, the others keeping their places; a failed get changes nothing |
| PacketCache.Cache.Peek | lruCache/packet/lru_packet_cache.c:161-179 | succeeds and hands out like a get, but moves the entry to the front, the others keeping their order; a failed peek changes nothing |
| PacketCache.Cache.Remove | lruCache/packet/lru_packet_cache.c:181-204 | succeeds exactly if the key is there, which is then gone, the others keeping their places |
| PacketCache.PerformAll | lruCache/packet/lru_packet_cache.c:76-204 | over any sequence of calls contents and replies are those of the policy |
| PacketCache.RunCalls | lruCache/packet/lru_packet_cache.c:6-204 | every run from initialisation refines the policy: bounded, distinct keys, by recency, last payloads; and every reply is the one that the calls and replies before it determine |
| PacketCache.RunIsLawful | lruCache/packet/lru_packet_cache.c:76-204 | replies in terms of calls and replies alone: a key is found exactly if its last successful call was a put or peek and never since then were as many other keys, used and not taken out, as the capacity; the packet is the one last put |
| PacketCache.GoneUntilPut | lruCache/packet/lru_packet_cache.c:123-204 | after a key has been taken out no get, peek or remove finds it until it is put again |
| PacketCache.FoundAgain | lruCache/packet/lru_packet_cache.c:76-179 | a packet put or peeked at is found, as last put, while fewer other keys than the capacity are called |
| EmbeddedCache.ChainedPop | lruCache/simple/lruCacheWithHashing.c:72-79 | popping the free chain leaves the chain of the remaining free nodes |
| EmbeddedCache.Cache.constructor | lruCache/simple/lruCacheWithHashing.c:50-69 | an empty cache whose free chain holds every node |
| EmbeddedCache.Cache.AllocNode | lruCache/simple/lruCacheWithHashing.c:72-79 | a cache that is not full always has a free node; contents unchanged |
| EmbeddedCache.Cache.RemoveTail | lruCache/simple/lruCacheWithHashing.c:155-164 | unlinks exactly the least recently used node |
| EmbeddedCache.Cache.Evict | lruCache/simple/lruCacheWithHashing.c:189-196 | unlinking the tail before removing its key still drops exactly the last entry from list and table |
| EmbeddedCache.Cache.Lookup | lruCache/simple/lruCacheWithHashing.c:90-98 | finds the node of the key's entry exactly when there is one |
| EmbeddedCache.Cache.Refresh | lruCache/simple/lruCacheWithHashing.c:182-187 | the entry gets the new value and moves to the front; the free chain is untouched |
| EmbeddedCache.Cache.Install | lruCache/simple/lruCacheWithHashing.c:202-221 | the new entry goes in front; insertion into the table cannot fail |
| EmbeddedCache.Cache.Get | lruCache/simple/lruCacheWithHashing.c:167-174 | a hit hands out the value of the key's entry, which moves to the front, the others keeping their order; a miss changes nothing |
| EmbeddedCache.Cache.Put | lruCache/simple/lruCacheWithHashing.c:177-222 | always succeeds; the entry with the new value is in front, the others keep their order, and a new key in a full cache drops exactly the last one |
| EmbeddedCache.RunCalls | lruCache/simple/lruCacheWithHashing.c:166-222 | every run refines the same policy as the packet cache, and every reply is the one that the calls and replies before it determine |
| EmbeddedCache.RunIsLawful | lruCache/simple/lruCacheWithHashing.c:166-222 | replies in terms of calls and replies alone: a key is found exactly if fewer other keys than the capacity have had a successful call since its own last one, with the value last put |
| EmbeddedCache.FoundAgain | lruCache/simple/lruCacheWithHashing.c:166-222 | a key put or found is found again, with the value last put, while fewer other keys than the capacity are called |
| BlockList.Disjoint | memorypool/memorypoolDLL.c:91-107 | headers and payloads of different blocks never overlap and lie inside the pool |
| BlockList.Canonical | memorypool/memorypoolDLL.c:131-153 | a coalesced tiling of the pool is determined by its live blocks |
| BlockList.GrantWellFormed | memorypool/memorypoolDLL.c:89-107 | allocation keeps the tiling coalesced and adds one live block with room for the request |
| BlockList.GrantSplits | memorypool/memorypool.c:63-79 | a grant splits exactly if a header and the least leftover remain; a free block that it creates has at least that size |
| BlockList.MergeKeeps | memorypool/memorypoolSLL.c:128-135 | merging free neighbours keeps the tiling and every live block |
| BlockList.FreeAtWellFormed | memorypool/memorypoolDLL.c:123-154 | two-neighbour coalescing leaves no adjacent free blocks and exactly one live block fewer |
| BlockList.ScanWellFormed | memorypool/memorypoolSLL.c:122-137 | the full scan coalesces any tiling and keeps every live block |
| BlockList.NeighboursSuffice | memorypool/memorypoolDLL.c:123-154 | two-neighbour coalescing yields exactly the block list of the full merge scan |
| PoolRuns.StepWellFormed | memorypool/memorypoolDLL.c:83-154 | every legal call keeps a coalesced tiling, the same one in both kinds of pool |
| PoolRuns.NullOnlyWhenFull | memorypool/memorypoolDLL.c:83-112 | allocation returns null exactly when no free block is large enough |
| PoolRuns.RunsAgree | memorypool/memorypoolSLL.c:81-138 | a run is legal for both kinds of pool or for neither, and after every legal run both hold the same coalesced tiling |
| PoolRuns.LiveBlocksFit | memorypool/memorypoolDLL.c:83-112 | after every legal run of either kind of pool each live block is as large as the request it was granted for and not larger than a split allows |
| PoolRuns.AllocAddsPointer | memorypool/memorypoolDLL.c:83-112 | a successful allocation returns the one pointer that becomes live |
| PoolRuns.FreeRemovesPointer | memorypool/memorypoolDLL.c:123-154 | a release makes exactly its pointer dead, in either kind of pool |
| PoolRuns.FreeAllRestores | memorypool/memorypoolDLL.c:123-154 | releasing every live pointer once, in any order, by the releases of either kind of pool, leaves the single initial free block |
| PoolRuns.RunThenFreeAll | memorypool/memorypoolDLL.c:36-154 | after any run that is legal for a pool its own releases of all live pointers restore it |
| DllPool.SplitMirrors | memorypool/memorypoolDLL.c:91-106 | the stores of a split spell out the split block list, prev mirroring next |
| DllPool.AbsorbMirrors | memorypool/memorypoolDLL.c:134-152 | the stores of a merge spell out the merged block list |
| DllPool.FreedEnd | memorypool/memorypoolDLL.c:135-146 | the merged size stays within the pool, so computing it cannot wrap |
| DllPool.Pool.constructor | memorypool/memorypoolDLL.c:36-58 | one free block over the whole pool, or no memory if only a header would fit |
| DllPool.Pool.Alloc | memorypool/memorypoolDLL.c:83-112 | pointer and new block list are those of first fit; no size computation wraps |
| DllPool.Pool.Carve | memorypool/memorypoolDLL.c:90-107 | hands out the block, split exactly when more than a header is left over |
| DllPool.Pool.Free | memorypool/memorypoolDLL.c:123-154 | the new block list is that of two-neighbour coalescing and equally that of a full scan |
| DllPool.Pool.MergeNext | memorypool/memorypoolDLL.c:133-142 | merges with the next block exactly if it is free |
| DllPool.Pool.MergePrev | memorypool/memorypoolDLL.c:144-153 | merges into the previous block exactly if it is free |
| DllPool.RunCalls | memorypool/memorypoolDLL.c:36-154 | over any legal sequence of calls blocks and pointers are those of the runs that the pool theorems are about |
| ScanPool.Pool.constructor | memorypool/memorypoolSLL.c:35-56 | one free block over the whole pool, or no memory if only a header would fit |
| ScanPool.Pool.Alloc | memorypool/memorypoolSLL.c:81-104 | pointer and new block list are those of first fit |
| ScanPool.Pool.Carve | memorypool/memorypool.c:63-79 | hands out the block, split exactly when at least the minimum leftover remains |
| ScanPool.Pool.Free | memorypool/memorypoolSLL.c:114-138 | the new block list is that of the full scan and equally that of two-neighbour coalescing |
| ScanPool.Pool.Coalesce | memorypool/memorypoolSLL.c:126-137 | the loop, which stays on a block after a merge, computes the full merge scan |
| ScanPool.Align4Rounds | memorypool/memorypool.c:30 | rounds up to the next multiple of 4 exactly when the addition does not wrap, and gives 0 otherwise |
| ScanPool.Align4CanShrink | memorypool/memorypool.c:30 | exactly the three largest requests are rounded down, to zero bytes |
| ScanPool.RunAligned | memorypool/memorypool.c:58-106 | after every run of rounded requests all offsets and sizes are multiples of 4 |
| ScanPool.AlignedFit | memorypool/memorypool.c:58-85 | after every run that is legal for this pool each live block exceeds the rounded request it was granted for by at most one header |
| ScanPool.AllocAligned | memorypool/memorypool.c:58-85 | rounds the request, then allocates by first fit; the block granted is as large as the request exactly if the request is not one of the three largest |
| ScanPool.GrantCovers | memorypool/memorypool.c:58-85 | the same of the block list: what is granted covers the request exactly if rounding does not wrap |
| ScanPool.RunCalls | memorypool/memorypoolSLL.c:35-138 | over any legal sequence of calls blocks and pointers are those of the runs that the pool theorems are about |
| Floyd.ShapeOf | pureStorage/detectLoopLinkedList.cpp:7-12 | every list over finitely many nodes ends or leads back to one of its nodes |
| Floyd.RevisitedNodes | pureStorage/detectLoopLinkedList.cpp:14-27 | exactly the nodes from the loop's entry on are visited again |
| Floyd.TheyMeet | pureStorage/detectLoopLinkedList.cpp:18-25 | on a list with a loop tortoise and hare meet after a known number of rounds |
| Floyd.MeetingRevealsEntry | pureStorage/detectLoopLinkedList.cpp:47-51 | walking on from a meeting and from the head, the two agree for the first time at the entry |
| Floyd.Race | pureStorage/detectLoopLinkedList.cpp:33-41 | the race terminates, and ends in a meeting exactly on a list with a loop |
| Floyd.DetectLoop | pureStorage/detectLoopLinkedList.cpp:14-27 | true exactly when the walk comes back to a node |
| Floyd.StartOfLoop | pureStorage/detectLoopLinkedList.cpp:29-53 | the first node that the walk comes back to, or null exactly when there is none |
| Floyd.TailReached | pureStorage/detectLoopLinkedList.cpp:69-73 | just before the two walks reach the entry, the one on the loop is on its last node |
| Floyd.FindTail | pureStorage/detectLoopLinkedList.cpp:69-73 | finds the node whose link leads back to the entry, or the head if that is the entry |
| Floyd.FixLoop | pureStorage/detectLoopLinkedList.cpp:54-79 | one link is cleared and every other kept; the list then ends, and consists of the same nodes in the same order exactly if the loop is not entered at the head of a longer list, of the head alone otherwise |
| Floyd.LosesNode | pureStorage/detectLoopLinkedList.cpp:68-75 | on a loop of two nodes through the head the second node is lost, although success is reported |
| LockFreeStack.StepRely | threadPool/lockFreeStack.cpp:27-53 | a step never changes published nodes and publishes at most the mover's own |
| LockFreeStack.StepKeepsChain | threadPool/lockFreeStack.cpp:27-53 | a step keeps the chain from the head acyclic and equal to the stack |
| LockFreeStack.StepKeepsExclusive | threadPool/lockFreeStack.cpp:47-51 | no node is pushed by two threads or returned by two pops |
| LockFreeStack.StepKeepsHistory | threadPool/lockFreeStack.cpp:32-42 | a swap acts on the stack at that moment as a sequential push or pop, and every other step leaves it alone |
| LockFreeStack.StepInv | threadPool/lockFreeStack.cpp:27-53 | every step keeps the invariant |
| LockFreeStack.EveryRun | threadPool/lockFreeStack.cpp:27-53 | under every interleaving the swaps in their order are a legal history of a sequential stack that ends in the chain's values; what it pushes are the arguments of the calls and what it pops are the results returned, up to calls in progress |
| LockFreeStack.TaggedIsHistory | threadPool/lockFreeStack.cpp:27-53 | the events of the threads' steps, in their order, are the history |
| LockFreeStack.EveryCall | threadPool/lockFreeStack.cpp:27-53 | in every run each completed call makes exactly one event, between its start and its end: the push of its argument, the pop of what it returns, or an empty stack |
| LockFreeStack.PopReturnsItsValue | threadPool/lockFreeStack.cpp:47-51 | the value read after the swap is the one taken at the swap, from a node no other thread holds |
| LockFreeStack.NeverStuck | threadPool/lockFreeStack.cpp:27-53 | in every reachable state every thread can go on with its call, or start either kind of call |
| LockFreeStack.HeadMoves | threadPool/lockFreeStack.cpp:32-42 | only a successful swap moves the head, and each completes a push or a pop |
| LockFreeStack.OvertakenByAnother | threadPool/lockFreeStack.cpp:32-42 | a swap that fails other than spuriously has been overtaken: since its thread's last load another thread's swap has succeeded |
| LockFreeStack.LockFree | threadPool/lockFreeStack.cpp:27-53 | in every run each successful swap accounts for at most one such failure per thread |
| LockFreeStack.Conservation | threadPool/lockFreeStack.cpp:27-53 | in every run the arguments of all pushes are the results of all pops, the values on the stack and those of calls in progress; without calls in progress, exactly the first two |
| LockFreeStack.PushesStack | threadPool/lockFreeStack.cpp:27-37 | in every run in which only pushes have succeeded the chain holds the values in reverse order of their swaps |
| LockFreeStack.DrainReturnsAll | threadPool/lockFreeStack.cpp:75-79 | from every reachable state, pops until one finds the stack empty take exactly its values, from the top |
| LockFreeStack.PushThenDrain | threadPool/lockFreeStack.cpp:65-79 | in every run of pushes in any interleaving and then pops until empty, each value is popped once, last swap first, and the results returned are the arguments |
| ThreadPool.StepKeepsOnce | threadPool/main_w_function.cpp:70-97 | every dequeued task is held by one worker or finished once |
| ThreadPool.StepKeepsWakeups | threadPool/main_w_function.cpp:61-79 | while a worker sleeps, queued tasks do not exceed woken workers plus undelivered notifications |
| ThreadPool.StepKeepsShutdown | threadPool/main_w_function.cpp:47-85 | workers return only after the stop with an empty queue, and nobody sleeps after the announcement |
| ThreadPool.StepInv | threadPool/main_w_function.cpp:32-97 | every step keeps all of these and the FIFO order |
| ThreadPool.EveryRun | threadPool/main_w_function.cpp:32-97 | in every run the tasks handed to the pool start in FIFO order, and when all workers have returned each has run exactly once; the pool has as many workers as asked for, at least one |
| ThreadPool.EnqueuedAre | threadPool/main_w_function.cpp:61-67 | the pool enqueues exactly the tasks handed to it, in order |
| ThreadPool.WorkerRun | threadPool/main_w_function.cpp:70-96 | every worker runs exactly the tasks that it took, in that order, one at a time |
| ThreadPool.RunsAreHistory | threadPool/main_w_function.cpp:88-95 | the tasks taken are those started, the tasks run are those finished |
| ThreadPool.OnlyNamed | threadPool/main_w_function.cpp:61-79 | a notification wakes at most one worker; only the announcement of the stop wakes all |
| ThreadPool.EveryoneCanMove | threadPool/main_w_function.cpp:61-97 | a worker is held up by nothing but the mutex and the condition variable, and tasks can be handed in until the stop |
| ThreadPool.Progress | threadPool/main_w_function.cpp:70-97 | while there is work or an incomplete stop, the pool itself can take a step |
| ThreadPool.InternalDecreases | threadPool/main_w_function.cpp:60-97 | every step that the pool takes by itself brings it closer to rest, also while it is running |
| ThreadPool.RestingIsDone | threadPool/main_w_function.cpp:60-97 | a pool that cannot take a step by itself has run every task exactly once |
| ThreadPool.CatchesUp | threadPool/main_w_function.cpp:60-97 | left to itself, under every schedule, a pool comes to rest within a bound with every task run exactly once |
| ThreadPool.RestingRun | threadPool/main_w_function.cpp:60-97 | whenever a pool cannot take a step by itself, every task handed to it so far has been run exactly once |
| ThreadPool.StopDecreases | threadPool/main_w_function.cpp:47-58 | after the stop every step brings the pool closer to its end |
| ThreadPool.ShutdownCompletes | threadPool/main_w_function.cpp:47-58 | under every schedule a stopped pool comes to rest within a bound, with all workers returned and every task handed to it run |
| BoundedBuffer.PushKeepsQueue | circularQueue/circularBufferStaticProdCons.cpp:20-38 | a push appends to the ring's contents or leaves them alone |
| BoundedBuffer.PopKeepsQueue | circularQueue/circularBufferStaticProdCons.cpp:44-60 | a pop takes the oldest item or leaves the contents alone |
| BoundedBuffer.StepKeepsQueue | circularQueue/circularBufferStaticProdCons.cpp:20-68 | accepted items are the popped ones followed by the ring's contents; after a stop nothing is accepted |
| BoundedBuffer.StepKeepsWakeups | circularQueue/circularBufferStaticProdCons.cpp:20-68 | while a consumer (producer) sleeps, items (free slots) do not exceed woken consumers (producers); after a stop nobody sleeps |
| BoundedBuffer.StepInv | circularQueue/circularBufferStaticProdCons.cpp:20-68 | every step keeps the invariant |
| BoundedBuffer.EveryRun | circularQueue/circularBufferStaticProdCons.cpp:11-68 | in every run the popped items are a prefix of the accepted ones, with the difference within the capacity, and no wake-up is lost |
| BoundedBuffer.FailuresExplained | circularQueue/circularBufferStaticProdCons.cpp:27-51 | a pop fails exactly when stopped and drained, a push exactly when stopped |
| BoundedBuffer.SomeoneIsServed | circularQueue/circularBufferStaticProdCons.cpp:20-68 | when a waiting thread could be served, some thread can enter the buffer and complete its call |
| BoundedBuffer.NeverAllAsleep | circularQueue/circularBufferStaticProdCons.cpp:20-68 | sleeping producers and consumers together always have a woken thread among them |
| BoundedBuffer.StoppedStep | circularQueue/circularBufferStaticProdCons.cpp:20-68 | in a stopped buffer every step of a call in progress completes it |
| BoundedBuffer.StopReleasesAll | circularQueue/circularBufferStaticProdCons.cpp:62-68 | after a stop, under every schedule, the calls in progress complete in exactly as many steps as there are of them, and until then one always can |
| BoundedBuffer.OnlyNamed | circularQueue/circularBufferStaticProdCons.cpp:20-60 | a push or pop moves its own thread and wakes at most the one that it notifies |
| BoundedBuffer.EveryoneCanMove | circularQueue/circularBufferStaticProdCons.cpp:20-68 | in every reachable state a thread outside can call, one inside that does not sleep can enter, and a sleeper can wake up |
| BufferCalls.ProducerRun | circularQueue/circularBufferStaticProdCons.cpp:20-38 | in every run what a producer puts into the ring are the arguments of its own pushes that returned true, in order |
| BufferCalls.PopsReturnHistory | circularQueue/circularBufferStaticProdCons.cpp:44-60 | in every run the items that pops return, in order, are the items popped |
| BufferCalls.ConsumerRun | circularQueue/circularBufferStaticProdCons.cpp:44-60 | each pop returns once, if it is not still in progress |
| BufferCalls.EveryCall | circularQueue/circularBufferStaticProdCons.cpp:11-68 | in every run from the start the items returned by pops are the first of those accepted, which for each producer are the arguments of its successful pushes, in order |
| BufferCalls.Conservation | circularQueue/circularBufferStaticProdCons.cpp:11-68 | in every run the arguments of all pushes are the items popped, those in the ring, those of pushes in progress and those refused |
| Fragmentation.DecodeEncode | arista/interview1/packetFragmentation.cpp:42-47 | a header survives the trip through bytes, whatever payload follows |
| Fragmentation.Fragment | arista/interview1/packetFragmentation.cpp:33-53 | one packet for every eight bytes, with header and chunk |
| Fragmentation.PacketBytes | arista/interview1/packetFragmentation.cpp:13-47 | a packet byte by byte: id, fragment number, count and length at their offsets, least significant byte first, then the payload |
| Fragmentation.JoinAllChunks | arista/interview1/packetFragmentation.cpp:36-47 | all chunks in order make up the message |
| Fragmentation.CountersSurvive | arista/interview1/packetFragmentation.cpp:42-43 | headers carry the true counters exactly for messages of at most 65535 fragments |
| Fragmentation.WrappedCountIsUnusable | arista/interview1/packetFragmentation.cpp:42-79 | a fresh receiver has room for exactly the packets whose number is below the count in the headers, so for none if the count wraps to zero |
| Fragmentation.SamePackets | arista/interview1/packetFragmentation.cpp:38-49 | the first packets of a message with a wrapped count are those of the beginning that its headers describe |
| Fragmentation.SendInOrder | arista/interview1/packetFragmentation.cpp:33-124 | the packets that the headers announce, delivered in order, yield the beginning that they describe, if any; the message comes out exactly if it has at least one and at most 65535 fragments |
| Fragmentation.RunAnyLength | arista/interview1/packetFragmentation.cpp:33-124 | with messages of any length, short ones come out exactly when their last missing fragment arrives, whatever happens to the others; longer ones never do; the run ends exactly at a packet whose number is not below its count; the buffers are those of the run so far |
| Fragmentation.RoomExact | arista/interview1/packetFragmentation.cpp:71-79 | the receiver has room for a packet exactly if its number is below the count in its header |
| Fragmentation.LongMatches | arista/interview1/packetFragmentation.cpp:64-91 | a packet of a long message leaves the buffers of the short ones in step with what has arrived |
| Fragmentation.EmptyMessage | arista/interview1/packetFragmentation.cpp:36-52 | the empty message has no packets and never comes out |
| Fragmentation.Reassembler.ProcessFragment | arista/interview1/packetFragmentation.cpp:64-91 | stores a new fragment, ignores a duplicate, and hands out the joined fragments when all are there |
| Fragmentation.Reassembler.Assemble | arista/interview1/packetFragmentation.cpp:111-124 | joins the fragments in order and forgets the buffer |
| Fragmentation.Reassembler.CleanupExpired | arista/interview1/packetFragmentation.cpp:93-108 | keeps a buffer, unchanged, exactly if fewer than timeout plus one seconds of nanoseconds have passed since its first fragment |
| Fragmentation.TicksDecide | arista/interview1/packetFragmentation.cpp:98-101 | comparing whole seconds with the timeout, in nanoseconds, also below zero |
| Fragmentation.FullMeansAll | arista/interview1/packetFragmentation.cpp:88 | the count reaches the total exactly when every fragment has arrived |
| Fragmentation.DeliverMatches | arista/interview1/packetFragmentation.cpp:64-91 | a delivery keeps the buffers in step with what has arrived and completes the message exactly with its last missing fragment |
| Fragmentation.CleanupMatches | arista/interview1/packetFragmentation.cpp:93-108 | so does a clean-up |
| Fragmentation.RunChannel | arista/interview1/packetFragmentation.cpp:33-124 | with no message of more than 65535 fragments, under reordering, duplication, loss, interleaving and timeouts every message handed out is the original, exactly when its last missing fragment arrives |
| ChannelLaws.CleanupForgets | arista/interview1/packetFragmentation.cpp:93-108 | a clean-up makes all fragments of a message missing again exactly if it comes too late for the first of them |
| ChannelLaws.HasSince | arista/interview1/packetFragmentation.cpp:64-108 | what the receiver has of a message are the fragments that arrived since it last had none, no clean-up since then being too late for the first |
| ChannelLaws.OutMeansArrived | arista/interview1/packetFragmentation.cpp:64-108 | a message comes out only when all its fragments have arrived, in time for the first of them |
| ChannelLaws.ArrivedComesOut | arista/interview1/packetFragmentation.cpp:64-108 | if all fragments arrive and no clean-up meanwhile is too late for one of them, the message comes out |
| ChannelLaws.RunPromises | arista/interview1/packetFragmentation.cpp:64-124 | both of these on the receiver itself |
| ChannelLaws.TimeoutCase | arista/interview1/packetFragmentation.cpp:163-176 | with a timeout of three seconds and a clean-up between the second and the third of three fragments, the message comes out exactly if fewer than four seconds have passed |
| NextPermutation.DescendingIsLargest | arista/nextGreaterElement.cpp:86-89 | a descending string has no greater permutation |
| NextPermutation.SuccessorIsLeast | arista/nextGreaterElement.cpp:91-103 | swap and reverse give a greater string, and no permutation lies in between |
| NextPermutation.NextPermutation | arista/nextGreaterElement.cpp:72-106 | the least greater permutation, or none exactly when no permutation is greater |
| NextPermutation.LexIsNumeric | arista/nextGreaterElement.cpp:62-63 | on digit strings of equal length lexicographic and numeric order coincide |
| NextPermutation.NextNumber | arista/nextGreaterElement.cpp:31-67 | the least greater permutation of a number's digits is the next number with the same digits |
| NextPermutation.FindPivot | arista/nextGreaterElement.cpp:38-46 | the rightmost digit with a larger successor, or -1 exactly if the digits descend |
| NextPermutation.FindSwap | arista/nextGreaterElement.cpp:50-53 | the rightmost digit behind the pivot that is larger than it |
| NextPermutation.NextGreaterElement | arista/nextGreaterElement.cpp:31-67 | from 0 on, the next greater number with the same digits, or -1 exactly when none fits an int; below 0, the negative of the next greater number cut down to an int, or the last digit if there is none |
| NextPermutation.SignStays | arista/nextGreaterElement.cpp:33-60 | a pivot behind the sign is the pivot of the digits, and the sign stays in front |
| NextPermutation.SignMoves | arista/nextGreaterElement.cpp:33-63 | a pivot at the sign swaps it with the last digit, which is then all that is read back |
| SignedNumbers.KeptExactly | arista/nextGreaterElement.cpp:31-67 | over all ints, the answer is the next greater number with the same digits, or -1 if no int is one, exactly for arguments from -9 on |
| SignedNumbers.WrapFails | arista/nextGreaterElement.cpp:63-66 | an answer that wraps around the int range is never the next greater number |
| SignedNumbers.BelowZero | arista/nextGreaterElement.cpp:63-66 | below -9, with fewer than ten digits, the answer is not even a greater number with the same digits |
| SignedNumbers.NegativeShrinks | arista/nextGreaterElement.cpp:31-67 | the answer for -12 is -21, which is smaller |
| CloneList.Weave | microsoft/cloneLinkedList.cpp:27-34 | every node is followed by a new copy of it |
| CloneList.LinkRandoms | microsoft/cloneLinkedList.cpp:38-43 | a copy's random pointer points to the copy of the original's target, or to the target's successor if that is not in the list |
| CloneList.Unweave | microsoft/cloneLinkedList.cpp:45-57 | the original list and the copies are two separate lists again |
| CloneList.CloneLinkedList2 | microsoft/cloneLinkedList.cpp:23-58 | restores every link of the original and returns a new list with the same data and links; the copies' random pointers lead to copies, or are null as the originals', exactly if no random pointer leaves the list, and then the two are isomorphic |
| CloneList.CopyNodes | microsoft/cloneLinkedList.cpp:65-73 | maps every node to a new node with its data |
| CloneList.CloneLinkedList | microsoft/cloneLinkedList.cpp:63-87 | leaves the original alone and returns a new list with the same data and links, a random pointer that leaves the list becoming null; the copies have random pointers as the originals exactly if there is none such, and then the two are isomorphic |
| CloneList.BothClones | microsoft/cloneLinkedList.cpp:23-87 | run on a list whose random pointers stay inside, the two programs return new lists isomorphic to each other |
| CloneList.LosesRandom | microsoft/cloneLinkedList.cpp:79-82 | the clone by map of a node with a random pointer to a node elsewhere has none |
| CloneList.RandomAstray | microsoft/cloneLinkedList.cpp:39-41 | the in-place clone of such a node has one to the successor of the node elsewhere |
| XorTrie.BitAt | maxXOR/main.cpp:27 | shifting and masking reads the bits of the path from the top, also of negative numbers |
| XorTrie.XorIsBitwise | maxXOR/main.cpp:39-43 | the signed value of the differing bits is the exclusive-or of the numbers |
| XorTrie.GreedyIsBest | maxXOR/main.cpp:38-47 | no number in the trie has a larger exclusive-or than the one the greedy path leads to |
| XorTrie.SetBitAppends | maxXOR/main.cpp:42 | setting the next lower bit of the result, the sign bit first, appends a 1 to the bits decided so far |
| XorTrie.BestIsMaximum | maxXOR/main.cpp:35-49 | the query returns the exclusive-or with a number in the trie whose bits, read without a sign, are the largest |
| XorTrie.Trie.Insert | maxXOR/main.cpp:24-33 | the trie holds exactly the beginnings of its numbers and of the new one |
| XorTrie.Trie.Query | maxXOR/main.cpp:39-46 | one level of the query follows a child that exists |
| XorTrie.Trie.GetMaxXor | maxXOR/main.cpp:35-49 | the result of the greedy query on a trie that is not empty |
| XorTrie.Trie.AnswersSoFar | maxXOR/main.cpp:58-71 | inserting one level ahead of the query is enough for the query |
| XorTrie.Trie.InsertAndGetMaxXor | maxXOR/main.cpp:51-74 | trie and result are those of an insertion followed by a query |
| XorTrie.FindMaximumXor | maxXOR/main.cpp:77-86 | the largest exclusive-or of two of the numbers before the first change of sign, 0 for none; the largest of all exactly if every later pair of one sign is matched by one before the change |
| XorTrie.BestAmongFirst | maxXOR/main.cpp:81-83 | the answer for a number is its largest exclusive-or with the earlier ones while these have its sign, and negative from the first change of sign on |
| XorTrie.BestExactly | maxXOR/main.cpp:81-83 | the answer for a number is its largest exclusive-or so far exactly before the first change of sign |
| XorTrie.MaximumOfAll | maxXOR/main.cpp:77-86 | the maximum before the first change of sign is that of all numbers exactly if no later pair is missed, so always for numbers of one sign |
| XorTrie.MixedSigns | maxXOR/main.cpp:77-86 | the result for -1, 0, 1 is 0, although the exclusive-or of 0 and 1 is 1 |

## Left out

- `hash_find_index` (`lruCache/packet/hash.c:20-36`): unused, and it does not compare keys.
- The concrete mixing of `hash_key` and `hash32`: only the range of the result matters.
- `free_node` and the failure branches after `ht_insert` and `hash_insert`: proved unreachable.
- `lruCache/simple/lruCacheSimple.c`: slots are matched without comparing keys, so it is not a map.
- The null checks on the pool pointer itself, a failing `malloc`, `mempool_destroy` and the printing functions.
- `memorypool/memorypoolSLL.cpp` and `memorypool/memorypoolDLL.cpp`: an earlier scan that does not fully coalesce, and a repetition of the C version.
- `fixLoop` on a null head, which dereferences null.
- Weak memory orderings, and reuse of deleted nodes in the lock-free stack, whose `delete` is safe only if no other pop still holds the node.
- Fairness and scheduling in the state machines beyond what the lemmas state for every schedule; the work done inside a task.
- The other thread pools and ring queues: the same protocols or easier ones.
- LockFreeStack.EveryRun: an empty pop is an event and a step of its own in place of the -1 sentinel, which cannot be told apart from a pushed -1.
- Polling, packet handling, leak detection, design patterns and language demonstrations.
