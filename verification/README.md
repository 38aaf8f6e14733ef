# Proofs about the server and algorithm exercises

The project models six parts of the repository in Dafny and proves what they are for.

- **Weighted A\*** (`GridPaths`, `WeightedSearch`, `StraightSearch`, `NodeHeap`, `AStar`). The search on a
  60 x 40 tile map with a closed set that is never reopened, decrease-key in an in-place
  binary heap, and a step budget. `WeightedSearch` is the search as transitions on values;
  the classes `MyHeap` and `CAStar` are proved to take exactly these transitions. Costs are
  multiples of one half and are stored doubled, so a straight step costs 2, a diagonal one 3,
  and the heuristic is 4 x Manhattan distance, which is 8/3 of the consistent 3/2 x Manhattan.
- **Lock-free stack** (`Sums`, `LockFreeStack`, `LockFreeProgress`). `Push` and `Pop` as
  single shared accesses of any number of threads in any interleaving, with nodes recycled at
  any moment. The runs refine a sequential LIFO stack, and a call left alone ends.
- **Thread-local chunk pool** (`ChunkPool`, `ChunkProgress`). `Alloc` and `Free` as single
  shared accesses. The runs refine a specification of chunk generations, whatever chunk a
  thread's TLS slot still names, and complete chunks do go back.
- **Client session** (`LanSession`, `LanProgress`, `Framing`). The I/O count that decides when
  a session is released and the flag that keeps one send in flight, as single shared accesses
  of up to 32765 threads, the most for which the 16-bit count cannot overflow; and the loop
  that cuts the received bytes into packets.
- **Ring buffers** (`Basics`, `ByteRing`, `ServerRing` in RingBuffer.dfy, `PaintRing`, `RingRuns`,
  `SpscRing`). Two implementations with different index conventions proved against one
  bounded byte queue, call by call and over whole runs; and the first of them used by one
  producer and one consumer without a lock.
- **Grids and the codec** (`FloodFill`, `RayCast`, `PathOptimizer`, `PacketCodec`). Flood
  fill by recursion and by an explicit stack, the line walker, the line-of-sight optimizer
  of a linked path, and the packet cipher, all as methods on the arrays and objects that the
  source changes in place.

Code that updates fields and arrays is modelled by classes and methods. The three
multi-threaded protocols and the lock-free use of the ring are state machines whose step is
one shared access; their theorems are about every state of every run.

## Where the code does not do what one would expect

- `SearchDestination` from a cell to itself returns nothing, because its budget is
  proportional to the distance (`AStar.CAStar.SearchDestination`). Between walkable cells its answer
  is exact if at most 100 times their distance cells are reachable from the end, in particular
  if they are at least 24 apart.
- `CompleteRecv` can leave a whole frame in the queue until more bytes arrive.
  `Framing.AllDeliveredIff` says exactly when, `Framing.SecondFrameWaits` gives an instance.
- A completion that fills the two receive buffers can bring one byte more than the queue has
  room for; `MoveRear` refuses it, its answer is ignored, and all its bytes are lost
  (`Framing.OfferIsOneTooMany`).
- A payload of more than 253 bytes may not get through: only the bytes counted by a BYTE are
  encoded and summed, and when the size is 254 above a multiple of 256 the loops of `Encode`
  and `Decode` do not end (`PacketCodec.LoopsEndIff`; the two methods require that they do).
  `PacketCodec.GetsThroughIff` says exactly when a packet gets through,
  `PacketCodec.LongPacketRejected` gives an instance that does not.
- After a `WSASend` that fails at once, or completes with nothing sent, `isSending` stays set
  and nothing is sent any more (`LanSession.StuckUntilReleased`), although `SendPacket` goes on
  accepting packets. `LanSession.OrphanedFlagIff` says exactly when the flag is left behind,
  `LanSession.SendFailureIsReached` gives a run that ends so.

## Model

| member | source | states |
|---|---|---|
| `GridPaths.DirectionsAreAdjacency` | CFindPath/CFindPath/CAStar.cpp:40-42 | the eight table directions reach exactly the 8-adjacent cells, each with the weight of its step |
| `GridPaths.PathReverse` | CFindPath/CFindPath/CAStar.cpp:26-34 | a wall-free path that starts on a walkable cell is, read backwards, a wall-free path back of the same cost |
| `GridPaths.ManhattanAlongPath` | CFindPath/CFindPath/CAStar.cpp:98 | along a path the cost so far plus three quarters of the Manhattan distance to any goal never falls |
| `GridPaths.ConsistentStep` | CFindPath/CFindPath/CAStar.h:6-7 | that estimate drops by at most the step weight along any step |
| `WeightedSearch.OpenCellOnPath` | CFindPath/CFindPath/CAStar.cpp:67-127 | every path from the start to a cell not yet closed passes through an open cell, and 3 g of that cell is at most 8 times the path's cost up to it |
| `WeightedSearch.CloseIsBounded` | CFindPath/CFindPath/CAStar.cpp:69-80 | a cell taken with the least f has 3 g at most 8 times the cost of every path to it |
| `WeightedSearch.CloseKeeps` | CFindPath/CFindPath/CAStar.cpp:69-80 | closing the least open cell keeps the search invariant |
| `WeightedSearch.RelaxKeeps` | CFindPath/CFindPath/CAStar.cpp:82-126 | relaxing one neighbour, whether new or open, keeps it: each generated cell has a closed parent next to it and g is the parent's g plus the step |
| `WeightedSearch.ChainIsPath` | CFindPath/CFindPath/CAStar.cpp:82-126 | the parents of a generated cell lead in strictly decreasing g to the start, through a wall-free path of cost g |
| `WeightedSearch.ExhaustedIsReachable` | CFindPath/CFindPath/CAStar.cpp:69-72 | with the open list empty, the closed cells are exactly those reachable from the start |
| `WeightedSearch.OpenFitsHeap` | CFindPath/CFindPath/CAStar.cpp:14-17 | open and closed cells together never exceed the 2400 map cells, so the heap of 2500 never grows |
| `StraightSearch.OctileIsLeast` | CFindPath/CFindPath/CAStar.cpp:40-42 | no path costs less than the octile distance |
| `StraightSearch.TowardsIsBest` | CFindPath/CFindPath/CAStar.cpp:95-102 | of all neighbours the one in the direction of the goal has strictly the least f, less than that of the cell itself |
| `StraightSearch.CourseKeeps` | CFindPath/CFindPath/CAStar.cpp:67-127 | with no wall in the rectangle of the ends, each turn closes the one open cell of least f, and the next such cell is one step nearer to the goal on an optimal walk |
| `NodeHeap.UpStep` | CFindPath/CFindPath/MyHeap.cpp:79-92 | one swap with the parent moves the only place where heap order may fail up to the parent |
| `NodeHeap.DownStep` | CFindPath/CFindPath/MyHeap.cpp:94-119 | one swap with the lesser child moves it down to that child |
| `NodeHeap.RootIsLeast` | CFindPath/CFindPath/MyHeap.cpp:33-46 | in a heap the root has the least key of all |
| `NodeHeap.MyHeap.Heapify` | CFindPath/CFindPath/MyHeap.cpp:79-92 | sifting up restores heap order over the same nodes |
| `NodeHeap.MyHeap.DeHeapify` | CFindPath/CFindPath/MyHeap.cpp:94-119 | sifting down restores heap order over the same nodes |
| `NodeHeap.MyHeap.InsertData` | CFindPath/CFindPath/MyHeap.cpp:19-31 | the heap holds the old nodes and the new one, in heap order |
| `NodeHeap.MyHeap.GetMin` | CFindPath/CFindPath/MyHeap.cpp:33-46 | gives and removes a node of least f, and nothing for an empty heap |
| `NodeHeap.MyHeap.UpdateNode` | CFindPath/CFindPath/MyHeap.cpp:48-70 | the one node at the position takes over g, f and parent if its f was larger, and nothing else changes; heap order is kept |
| `AStar.CAStar.RelaxNeighbour` | CFindPath/CFindPath/CAStar.cpp:82-126 | the body of the neighbour loop is one relaxation of the search on values |
| `AStar.CAStar.Advance` | CFindPath/CFindPath/CAStar.cpp:67-127 | one turn of the search loop keeps the invariant, closes one more cell, and finds the goal or that it cannot be reached |
| `AStar.CAStar.Clear` | CFindPath/CFindPath/CAStar.cpp:134-153 | empties the open list and the queue and returns how many nodes there were |
| `AStar.CAStar.SearchHelper` | CFindPath/CFindPath/CAStar.cpp:36-132 | a returned node heads a parent chain to the start that is a wall-free path of cost g, and 3 g is at most 8 times the cost of every such path; otherwise the goal is unreachable or twice (backward: 100 times) the Manhattan distance of other reachable cells were closed; with no wall in the rectangle of two different ends it finds the goal in at most distance + 1 turns, at the octile cost |
| `AStar.CAStar.SearchDestination` | CFindPath/CFindPath/CAStar.cpp:26-34 | whichever search gave the answer, 3 g is at most 8 times the cost of every path from begin to end, and g is the cost of one of them if the end may be entered; between walkable cells the answer is exact if the region of the end has at most 100 times their distance in cells, hence from distance 24 on; with no wall in the rectangle of two different ends the forward search answers, at the octile cost; nothing from a cell to itself |
| `AStar.LargeBudgetIsExact` | CFindPath/CFindPath/CAStar.cpp:58-67 | a budget of at least the number of cells reachable from the start runs out only when the goal is unreachable |
| `AStar.FoundBackwardServes` | CFindPath/CFindPath/CAStar.cpp:26-34 | a node found by the backward search carries the 8/3 bound over to the forward paths, and its chain read backwards is one of them |
| `AStar.BackwardIsExact` | CFindPath/CFindPath/CAStar.cpp:58-67 | when the backward budget covers the region of the end, as it does from distance 24 on, a backward search that finds nothing means there is no way |
| `AStar.NodeChainOk` | CFindPath/CFindPath/CAStar.cpp:46-50 | the pParent chain of any generated node reaches the start's node, whose own pParent is never looked at |
| `LockFreeStack.StepRefines` | LockFreeStack/LockFreeStack/TC_LFStack.h:110-181 | every step of any thread keeps the invariant and is a push, a pop or nothing on one LIFO sequence, the compare-and-swaps with stale reads included |
| `LockFreeStack.RunRefines` | LockFreeStack/LockFreeStack/TC_LFStack.h:110-181 | the events of any schedule form a run of the sequential stack that ends with the values linked in memory |
| `LockFreeStack.ReservationsAreBacked` | LockFreeStack/LockFreeStack/TC_LFStack.h:127-142 | in every run the size counter equals the linked nodes minus uncounted pushes, reserved pops and failed pops under way, and at least as many nodes are linked as there are reserved pops |
| `LockFreeStack.PopFailsIff` | LockFreeStack/LockFreeStack/TC_LFStack.h:137-142 | in every run the size test of a Pop fails if and only if the linked nodes are no more than the uncounted pushes, reserved pops and failed pops under way |
| `LockFreeStack.QuietPopFailsIff` | LockFreeStack/LockFreeStack/TC_LFStack.h:137-142 | with no other call under way a Pop fails if and only if the stack is empty |
| `LockFreeStack.ReservedPopSeesATop` | LockFreeStack/LockFreeStack/TC_LFStack.h:137-149 | in every run a popper past the size test finds a top that is linked and not free |
| `LockFreeStack.StaleTopIsStillValid` | LockFreeStack/LockFreeStack/TC_LFStack.h:146-152 | in every run, if the counter is still the one a Pop read, the pointer it read next is still linked and the next it read there is still right, whatever was recycled in between |
| `LockFreeStack.NeverStuck` | LockFreeStack/LockFreeStack/TC_LFStack.h:146-156 | in every run no thread reads through a null or unallocated pointer |
| `LockFreeStack.SpecConserves` | LockFreeStack/LockFreeStack/TC_LFStack.h:110-181 | in runs of the sequential stack each value is pushed as often as it is returned, owed to a running pop or still stacked |
| `LockFreeStack.NothingLostOrDuplicated` | LockFreeStack/LockFreeStack/TC_LFStack.h:110-181 | the same for every interleaving of the threads |
| `LockFreeProgress.PopEndsAlone` | LockFreeStack/LockFreeStack/TC_LFStack.h:144-156 | in every run a pop past the size test that is left alone, whatever the others are in the middle of, returns within nine accesses: the top value, which it takes off, or the one it has unlinked |
| `LockFreeProgress.PushEndsAlone` | LockFreeStack/LockFreeStack/TC_LFStack.h:118-127 | in every run a push left alone ends within six accesses with its value on top |
| `LockFreeProgress.PopAlone` | LockFreeStack/LockFreeStack/TC_LFStack.h:131-181 | in every run, with no other call under way and the stack not empty, a Pop takes off and returns the top value in six accesses after its size test |
| `LockFreeProgress.PushAlone` | LockFreeStack/LockFreeStack/TC_LFStack.h:110-128 | in every run a Push running alone puts its value on top in five accesses after it has its node |
| `LockFreeProgress.NoNodeLost` | LockFreeStack/LockFreeStack/TC_LFStack.h:115-156 | in every run each node ever allocated is linked, free for reuse, or in the hands of a thread |
| `ChunkPool.StepRefines` | MemoryPool_TLS/MemoryPool_TLS/ObjectPool_TLS.h:92-178 | every step of any thread keeps the invariant and is a step of the specification of chunk generations |
| `ChunkPool.RunRefines` | MemoryPool_TLS/MemoryPool_TLS/ObjectPool_TLS.h:92-178 | the events of any schedule form a run of that specification |
| `ChunkPool.ExclusiveBump` | MemoryPool_TLS/MemoryPool_TLS/ObjectPool_TLS.h:94-106 | in every run no two threads bump-allocate from the same chunk at once, even with stale TLS slots |
| `ChunkPool.HandedSlotIsFresh` | MemoryPool_TLS/MemoryPool_TLS/ObjectPool_TLS.h:148-158 | in every run a slot being handed out lies in the chunk, is held by nobody and freed by nobody |
| `ChunkPool.ReturnedChunkIsDone` | MemoryPool_TLS/MemoryPool_TLS/ObjectPool_TLS.h:170-175 | in every run a chunk on its way back has no slot in use, no thread allocating from it and no second thread returning it |
| `ChunkPool.NeverStuck` | MemoryPool_TLS/MemoryPool_TLS/ObjectPool_TLS.h:97-117 | in every run no thread uses a chunk that does not exist or a negative index |
| `ChunkPool.GenerationsBalance` | MemoryPool_TLS/MemoryPool_TLS/ObjectPool_TLS.h:148-178 | every return of a chunk pays for exactly 1000 allocations and 1000 frees and ends exactly one acquisition |
| `ChunkProgress.LastFree` | MemoryPool_TLS/MemoryPool_TLS/ObjectPool_TLS.h:170-175 | the free that leaves none of a generation's slots unfreed is exactly the one whose increment sends the chunk back |
| `ChunkProgress.CompleteChunkHasAReturner` | MemoryPool_TLS/MemoryPool_TLS/ObjectPool_TLS.h:170-175 | in every run each generation with all slots freed has exactly one thread about to return its chunk |
| `ChunkProgress.FreedChunkIsPooled` | MemoryPool_TLS/MemoryPool_TLS/ObjectPool_TLS.h:148-178 | in every run, once all threads are idle, a chunk freed 1000 times for each time it was acquired is in the shared pool |
| `ChunkProgress.OneOpenChunk` | MemoryPool_TLS/MemoryPool_TLS/ObjectPool_TLS.h:94-106 | in every run a thread owns at most one running generation with slots left |
| `ChunkProgress.AllocGoesOn` | MemoryPool_TLS/MemoryPool_TLS/ObjectPool_TLS.h:92-118 | in every run an Alloc left alone hands out the next slot of the thread's generation if that has slots left |
| `ChunkProgress.AllocFromPool` | MemoryPool_TLS/MemoryPool_TLS/ObjectPool_TLS.h:100-117 | in every run an Alloc that is given a chunk by the pool and left alone hands out its slot 0 |
| `LanSession.StepKeeps` | CLanClient/CLanClient/CLanClient.cpp:81-110 | every step of SendPacket, Disconnect, SendPost, the completions and ReleaseProc keeps the session invariant, the first two called by the application or by OnRecv |
| `LanSession.RunKeeps` | CLanClient/CLanClient/CLanClient.cpp:385-402 | it holds in every state reachable from the registration |
| `LanSession.SingleSender` | CLanClient/CLanClient/CLanClient.cpp:589-642 | at most one send and one receive are outstanding, and isSending is set exactly while a thread or a send in flight owns it or a send has failed |
| `LanSession.FifoExactlyOnce` | CLanClient/CLanClient/CLanClient.cpp:514-535 | dropped and queued packets are the accepted ones in order, sent packets are a prefix of them, and while a send is out the first numSendingPacket entries of the queue are the ones posted |
| `LanSession.NoLostWakeup` | CLanClient/CLanClient/CLanClient.cpp:594-611 | while a packet waits with isSending clear, some thread is at the exchange or at the second look |
| `LanSession.ReleasedOnce` | CLanClient/CLanClient/CLanClient.cpp:683-716 | the body of ReleaseProc runs at most once, and the 16-bit count is exactly the references held |
| `LanSession.ReleaseIsExclusive` | CLanClient/CLanClient/CLanClient.cpp:705-740 | once it runs, nothing is outstanding, no thread of SendPacket or Disconnect that saw isReleased = 0 still holds its reference, and no thread uses the socket that is closed |
| `LanSession.ReleaseDrainsEverything` | CLanClient/CLanClient/CLanClient.cpp:725-735 | after it every accepted packet has been dropped from the queue |
| `LanSession.QuiescentIsReleased` | CLanClient/CLanClient/CLanClient.cpp:688-703 | when all threads are idle and nothing is outstanding, the session has been released |
| `LanSession.NeverCrashes` | CLanClient/CLanClient/CLanClient.cpp:694-697 | no decrement ever sees a negative count, and CompleteSend always finds the packets it takes out |
| `LanSession.StuckUntilReleased` | CLanClient/CLanClient/CLanClient.cpp:624-636 | in every state after a send has failed what was handed to WSASend stays the same, and until the release isSending stays set and accepted packets only pile up |
| `LanSession.OrphanedFlagIff` | CLanClient/CLanClient/CLanClient.cpp:594-640 | with no owner and no send outstanding, isSending is set exactly when a send has failed |
| `LanSession.SendFailureIsReached` | CLanClient/CLanClient/CLanClient.cpp:81-110 | a schedule in which SendPacket returns with its packet accepted, in the queue and never sent, and nobody left to send it |
| `LanProgress.ReceiveGoesOn` | CLanClient/CLanClient/CLanClient.cpp:499-511 | in every run in which nothing has ended the receives exactly one receive is outstanding or being handled, and the session is not released |
| `LanProgress.ReceivesEndIff` | CLanClient/CLanClient/CLanClient.cpp:458-587 | the receives are ended by a completion without bytes, a frame that is too long or a WSARecv that fails, and by nothing else |
| `LanProgress.ReceiveAlone` | CLanClient/CLanClient/CLanClient.cpp:458-587 | in every run a receive completion with bytes and good frames, left alone, posts the next receive |
| `LanProgress.SendAlone` | CLanClient/CLanClient/CLanClient.cpp:81-110 | in every run a SendPacket left alone on a live session with isSending clear accepts its packet and posts the whole queue, up to 100 packets |
| `LanProgress.SendWhileSending` | CLanClient/CLanClient/CLanClient.cpp:81-110 | with isSending set it accepts and queues the packet and posts nothing |
| `LanProgress.CompletionAlone` | CLanClient/CLanClient/CLanClient.cpp:514-535 | in every run a send completion left alone drops exactly the posted packets and posts what waits behind them, up to 100, or clears isSending |
| `LanProgress.RefusedIff` | CLanClient/CLanClient/CLanClient.cpp:83-93 | SendPacket refuses a packet exactly where it sees the count at zero or the session released |
| `Framing.CompleteRecv` | CLanClient/CLanClient/CLanClient.cpp:458-512 | the payloads handed on, framed again and followed by what stays queued, are the bytes queued and taken over, and the loop stopped for one of its reasons; a completion larger than the free size is not taken over |
| `Framing.OfferIsOneTooMany` | CLanClient/CLanClient/CLanClient.cpp:660-666 | with the rear not before the front the two receive buffers offer one byte more than the free size, and a completion that fills them is not taken over |
| `Framing.OutcomeIsUnique` | CLanClient/CLanClient/CLanClient.cpp:465-490 | that contract leaves one outcome only for given bytes and completion size |
| `Framing.ParsesAgree` | CLanClient/CLanClient/CLanClient.cpp:470-490 | two readings of the same bytes as frames agree as far as both go |
| `Framing.AllDeliveredIff` | CLanClient/CLanClient/CLanClient.cpp:465-468 | every whole frame is handed on in the same call if and only if the frames before the last one are shorter than the completion and the last is not a bare header at the end, whatever follows them |
| `Framing.WholeFrames` | CLanClient/CLanClient/CLanClient.cpp:470-490 | any bytes are whole frames followed by something that does not start with one |
| `Framing.SecondFrameWaits` | CLanClient/CLanClient/CLanClient.cpp:465 | a completion of four bytes that leaves a whole frame queued |
| `Framing.StreamStep` | CLanClient/CLanClient/CLanClient.cpp:458-512 | for any piece of a stream of frames, what is handed on continues a prefix of the frames and the length check never fails |
| `Framing.BufferedStaysSmall` | CLanClient/CLanClient/CLanClient.cpp:465-480 | fewer than 402 bytes stay queued after a call if fewer were queued before |
| `Framing.ReceiveStream` | CLanClient/CLanClient/CLanClient.cpp:458-512 | for any fragmentation of a stream of frames the payloads handed on are a prefix of those sent, fewer than 402 bytes wait, and a queue of 402 bytes never blocks |
| `ServerRing.RingBuffer.Resize` | CNetServer/CNetServer/RingBuffer.cpp:28-54 | keeps the queued bytes, wrapped or not, and grows the capacity; a smaller size is ignored |
| `ServerRing.RingBuffer.GetFreeSize` | CNetServer/CNetServer/RingBuffer.cpp:61-74 | used and free bytes add up to the capacity |
| `ServerRing.RingBuffer.DirectEnqueueSize` | CNetServer/CNetServer/RingBuffer.cpp:76-93 | the free bytes that lie in one piece after the rear |
| `ServerRing.RingBuffer.DirectDequeueSize` | CNetServer/CNetServer/RingBuffer.cpp:95-106 | the queued bytes that lie in one piece after the front |
| `ServerRing.RingBuffer.Enqueue` | CNetServer/CNetServer/RingBuffer.cpp:108-150 | appends the first bytes, as many as fit, and says how many |
| `ServerRing.RingBuffer.Dequeue` | CNetServer/CNetServer/RingBuffer.cpp:152-193 | copies out and removes the oldest bytes, as many as asked for and queued |
| `ServerRing.RingBuffer.Peek` | CNetServer/CNetServer/RingBuffer.cpp:195-228 | copies them out and changes nothing |
| `ServerRing.RingBuffer.MoveRear` | CNetServer/CNetServer/RingBuffer.cpp:230-240 | takes over the bytes lying after the rear, or refuses |
| `ServerRing.RingBuffer.MoveFront` | CNetServer/CNetServer/RingBuffer.cpp:242-252 | drops bytes from the front, or refuses |
| `PaintRing.RingBuffer.Resize` | PaintNetwork/PaintNetwork/RingBuffer.cpp:26-52 | as for the server's ring, with an index possibly one past the last slot |
| `PaintRing.RingBuffer.GetFreeSize` | PaintNetwork/PaintNetwork/RingBuffer.cpp:59-70 | used and free bytes add up to the capacity |
| `PaintRing.RingBuffer.DirectEnqueueSize` | PaintNetwork/PaintNetwork/RingBuffer.cpp:72-87 | the free bytes that lie in one piece after the rear, none when it rests one past the last slot |
| `PaintRing.RingBuffer.DirectDequeueSize` | PaintNetwork/PaintNetwork/RingBuffer.cpp:89-97 | the queued bytes that lie in one piece after the front |
| `PaintRing.RingBuffer.Enqueue` | PaintNetwork/PaintNetwork/RingBuffer.cpp:99-138 | appends the first bytes, as many as fit, on every branch |
| `PaintRing.RingBuffer.Dequeue` | PaintNetwork/PaintNetwork/RingBuffer.cpp:140-178 | copies out and removes the oldest bytes, on every branch |
| `PaintRing.RingBuffer.Peek` | PaintNetwork/PaintNetwork/RingBuffer.cpp:180-213 | copies them out and changes nothing |
| `PaintRing.RingBuffer.MoveRear` | PaintNetwork/PaintNetwork/RingBuffer.cpp:215-243 | takes over the bytes lying after the rear, or refuses |
| `PaintRing.RingBuffer.MoveFront` | PaintNetwork/PaintNetwork/RingBuffer.cpp:245-273 | drops bytes from the front, or refuses |
| `RingRuns.ServerRun` | CNetServer/CNetServer/RingBuffer.cpp:28-257 | the server's ring answers any sequence of operations as the bounded byte queue does |
| `RingRuns.PaintRun` | PaintNetwork/PaintNetwork/RingBuffer.cpp:26-278 | the other ring gives the very same answers |
| `RingRuns.Conservation` | CNetServer/CNetServer/RingBuffer.cpp:28-257 | over any run the bytes taken off, followed by those queued, are the bytes put in, in order |
| `ByteRing.Granted` | CNetServer/CNetServer/RingBuffer.cpp:127-133 | of a positive request all is granted or all there is, and nothing of another |
| `SpscRing.FifoPrefix` | CNetServer/CNetServer/RingBuffer.cpp:108-193 | in every interleaving of one producer and one consumer the bytes delivered are a prefix of those accepted and the unread bytes in the array are the rest |
| `SpscRing.StepRefines` | CNetServer/CNetServer/RingBuffer.cpp:108-193 | Enqueue takes effect where it publishes the rear and Dequeue where it publishes the front; no other step changes an unread byte or leaves the array |
| `SpscRing.StoreKeeps` | CNetServer/CNetServer/RingBuffer.cpp:135-145 | a byte copied in overwrites neither an unread byte nor another byte of its block |
| `SpscRing.UsedIsExact` | CNetServer/CNetServer/RingBuffer.cpp:118-125 | the two indices alone tell how many bytes of the stream are queued |
| `SpscRing.EnqueueAlone` | CNetServer/CNetServer/RingBuffer.cpp:108-150 | an Enqueue, whatever the consumer is in the middle of, can run to its end and then has taken all the data or all that fitted when it looked |
| `SpscRing.DequeueAlone` | CNetServer/CNetServer/RingBuffer.cpp:152-193 | a Dequeue likewise delivers as much as asked for or all that was queued |
| `FloodFill.Canvas.Paint` | lecture1/Assignment2/main.cpp:60-79 | on a grid of any size the recursion ends, and recolours and visits exactly the 4-connected unvisited cells of the start's colour |
| `FloodFill.Canvas.PaintStack2` | stack/stack/main.cpp:157-187 | on a grid of any size recolours and visits the same cells whatever is read off the grid, and leaves the stack empty; the number of pushes made, each of which stays inside a stack of 1 + 4 entries per cell of the grid, is at most 1 + 4 per cell of the component |
| `FloodFill.Canvas.constructor` | stack/stack/main.cpp:6-27 | the program's 10 x 10 grid and stack of 1000 entries, nothing visited or pushed |
| `FloodFill.Canvas.Turn` | stack/stack/main.cpp:198-247 | one turn of the program clears the visits and recolours the component of the chosen cell; on the 10 x 10 grid it pushes at most 401 times |
| `FloodFill.Program` | stack/stack/main.cpp:191-250 | from any picture any choices recolour one component after the other, within the stack of 1000 and 401 pushes a turn |
| `FloodFill.ClosedIsComponent` | lecture1/Assignment2/main.cpp:64-76 | a set of reached cells that holds the start and no neighbour outside is the whole component |
| `FloodFill.SubComponent` | lecture1/Assignment2/main.cpp:73-75 | a recursive call that avoids all visited cells paints a part of the component and leaves none of its neighbours out |
| `FloodFill.PushSeen` | stack/stack/main.cpp:175-183 | a cell on the stack is off the grid, visited or in the component, also when a recoloured cell looks alike |
| `FloodFill.AnyStartWillDo` | lecture1/Assignment2/main.cpp:60-79 | with nothing visited, every cell of a component has that component |
| `RayCast.CRayCast.SetEnd` | WinJumpPointSearch/WinJumpPointSearch/CRayCast.cpp:11-33 | sets the walker to cell 0 of the ray |
| `RayCast.CRayCast.GetNext` | WinJumpPointSearch/WinJumpPointSearch/CRayCast.cpp:35-67 | call number k gives the rounded point k of the straight line, and says that the end is passed only after the last cell |
| `RayCast.CRayCast.Reset` | WinJumpPointSearch/WinJumpPointSearch/CRayCast.cpp:69-81 | sets the walker back to cell 0 |
| `RayCast.OffsetStep` | WinJumpPointSearch/WinJumpPointSearch/CRayCast.cpp:41-48 | one step of the counter is one step of the rounded division |
| `RayCast.RayEnds` | WinJumpPointSearch/WinJumpPointSearch/CRayCast.cpp:11-67 | the ray starts at the begin and, max(dx, dy) steps later, is at the end |
| `RayCast.RayIsConnected` | WinJumpPointSearch/WinJumpPointSearch/CRayCast.cpp:41-63 | each cell is 8-adjacent to the next |
| `RayCast.RayInBox` | WinJumpPointSearch/WinJumpPointSearch/CRayCast.cpp:35-67 | the ray stays in the rectangle spanned by its ends |
| `RayCast.RayIsNearLine` | WinJumpPointSearch/WinJumpPointSearch/CRayCast.cpp:35-67 | each cell is within half a cell of the straight line |
| `RayCast.RayIsRun` | WinJumpPointSearch/WinJumpPointSearch/CRayCast.cpp:35-67 | between cells on one row, column or diagonal the ray is exactly the run between them |
| `PathOptimizer.CellsOfRay` | WinJumpPointSearch/WinJumpPointSearch/CRayCast.cpp:35-67 | GetNext until it reports the end gives exactly max(dx, dy) + 1 cells, those of the ray |
| `PathOptimizer.JumpPointOptimizer.InsertNode` | WinJumpPointSearch/WinJumpPointSearch/JumpPointOptimizer.cpp:20-47 | the linked list becomes the old one with the new position, without the last node if the nodes around it see each other |
| `PathOptimizer.JumpPointOptimizer.Optimize` | WinJumpPointSearch/WinJumpPointSearch/JumpPointOptimizer.cpp:66-91 | takes out the last node but one exactly when no wall is on the ray around it, and leaves mBegin at the new last node but one |
| `PathOptimizer.JumpPointOptimizer.LineIsFree` | WinJumpPointSearch/WinJumpPointSearch/JumpPointOptimizer.cpp:76-84 | tells whether any cell of the ray is a wall, without leaving the map |
| `PathOptimizer.SightIsKept` | WinJumpPointSearch/WinJumpPointSearch/JumpPointOptimizer.cpp:66-91 | if each position fed sees the next, each position of the list sees the next |
| `PathOptimizer.SeesAlongRun` | WinJumpPointSearch/WinJumpPointSearch/JumpPointOptimizer.cpp:76-84 | such cells see each other if and only if no cell of the run between them is a wall |
| `PathOptimizer.WalkSees` | WinJumpPointSearch/WinJumpPointSearch/JumpPointOptimizer.cpp:76-84 | on a wall-free 8-connected walk each cell sees the next, so every such walk may be fed |
| `PathOptimizer.ListIsSubsequence` | WinJumpPointSearch/WinJumpPointSearch/JumpPointOptimizer.cpp:20-47 | the list is a subsequence of what was fed and keeps the first and last position |
| `PathOptimizer.VisibleChainCollapses` | WinJumpPointSearch/WinJumpPointSearch/JumpPointOptimizer.cpp:20-91 | if the first position sees all from the third on, only the first and the last stay |
| `PathOptimizer.Kept` | WinJumpPointSearch/WinJumpPointSearch/JumpPointOptimizer.cpp:43-90 | a node is dropped if and only if there are two before the new one and the first of them sees it |
| `PathOptimizer.OptimizedPathIsFree` | WinJumpPointSearch/WinJumpPointSearch/JumpPointOptimizer.cpp:20-91 | what is drawn for the optimized path is an 8-connected wall-free way from the first position fed to the last |
| `PacketCodec.CNetPacket.ReadySend` | CNetPacket/CNetPacket/CNetPacket.cpp:431-440 | sets the header and encodes the first time, and changes nothing later |
| `PacketCodec.CNetPacket.PutData` | CNetPacket/CNetPacket/CNetPacket.cpp:338-349 | appends the bytes to the payload |
| `PacketCodec.CNetPacket.SetHeader` | CNetPacket/CNetPacket/CNetPacket.cpp:442-465 | puts code, length in two bytes with the low byte first, key and checksum in front and leaves the payload alone |
| `PacketCodec.CNetPacket.Encode` | CNetPacket/CNetPacket/CNetPacket.cpp:467-487 | enciphers in place the bytes from the checksum on, size + 1 cut to a BYTE of them, by the law of the two layers, and leaves the others alone |
| `PacketCodec.CNetPacket.Decode` | CNetPacket/CNetPacket/CNetPacket.cpp:489-526 | leaves what encodes to the bytes it found, and reports whether the checksum fits the bytes summed |
| `PacketCodec.MaskedIff` | CNetPacket/CNetPacket/CNetPacket.cpp:480-481 | masking is, in each of the eight bits, the exclusive or with the number computed as an int |
| `PacketCodec.EnciphersIff` | CNetPacket/CNetPacket/CNetPacket.cpp:477-486 | the cipher is exactly the bytes of which each inner byte is the plain one xor (last inner byte + randKey + count) and each outer byte the inner one xor (last outer byte + key + count) |
| `PacketCodec.DecryptEncrypt` | CNetPacket/CNetPacket/CNetPacket.cpp:477-512 | deciphering undoes ciphering for all keys and carried states |
| `PacketCodec.EncryptDecrypt` | CNetPacket/CNetPacket/CNetPacket.cpp:477-512 | ciphering undoes deciphering, so both are bijections |
| `PacketCodec.CodecIsBijective` | CNetPacket/CNetPacket/CNetPacket.cpp:467-512 | the same for whole packets, the rest of the packet untouched |
| `PacketCodec.GetsThroughIff` | CNetPacket/CNetPacket/CNetPacket.cpp:475-525 | deciphering restores what was sent; and a packet gets through, Encode and Decode returning and Decode reporting success, if and only if its size is not 254 above a multiple of 256 and the payload bytes that only the sender sums add up to 0 |
| `PacketCodec.RoundTrip` | CNetPacket/CNetPacket/CNetPacket.cpp:442-526 | with at most 253 bytes of payload the packet gets through and checksum and payload are restored, for all keys |
| `PacketCodec.Transmit` | CNetPacket/CNetPacket/CNetPacket.cpp:431-526 | in one buffer, ReadySend and then Decode give the payload back, and success exactly when the bytes that only the sender sums add up to 0, always up to 253 bytes |
| `PacketCodec.LongPacketRejected` | CNetPacket/CNetPacket/CNetPacket.cpp:475-525 | a payload of 255 bytes for which the loops end and which is rejected undamaged |
| `PacketCodec.LoopsEndIff` | CNetPacket/CNetPacket/CNetPacket.cpp:475-477 | after some number of turns the byte counter passes the length if and only if the size is not 254 above a multiple of 256 |

`PathOptimizer.JumpPointOptimizer.InsertChain` and `PathOptimizer.DrawPathCell` are the two
loops of JumpPoint.cpp (lines 56-63 and 1217-1241) that feed the optimizer and draw its list.

## Left out

- NodeHeap.MyHeap.InsertData: requires room in the heap instead of modelling `resize`, which copies one entry too few; the search never needs it (`WeightedSearch.OpenFitsHeap`).
- PacketCodec.CNetPacket.Encode: requires a size for which its loop ends.
- PacketCodec.CNetPacket.PutData: requires room in the buffer instead of modelling its growth.
- PacketCodec.CNetPacket.ReadySend: requires a size for which the loop of Encode ends.
- PacketCodec.CNetPacket.Decode: requires a size for which its loop ends, and a front that lies right behind the header.
- AStar.CAStar.SearchDestination: for walkable cells less than 24 apart in a region larger than 100 times their distance a negative answer is only known to mean unreachable or a spent budget.
- LockFreeStack.RunRefines: a Pop that fails is a step that changes nothing; with other calls under way it may fail on a stack that is not empty, as `LockFreeStack.PopFailsIff` says exactly.
- Framing.ReceiveStream: each completion delivers between 1 and free-size bytes, one less than `SetWSABuf` can offer when the rear is not before the front; the length it computes when the rear is before the front is not modelled, nor are the packet objects and their pool.
- AStar.CAStar.Clear: the queue of closed nodes is unbounded, whereas the code's has 500 entries and its refusal is ignored, so beyond 500 closed nodes the code returns a smaller count and does not give the others back to the pool.
- A*: nodes are fresh objects instead of pooled ones, and the caller clears the search object before the next search.
- The start node's `pParent`, which the code never sets, is not read by any chain.
- Sequential consistency is assumed, each Interlocked call is one step, and the 64-bit stack counter and the pool size counters do not wrap.
- The send queue and the shared chunk pool are atomic objects; their own lock-free code is not modelled, and the `code` check in `CChunk::Free` always succeeds.
- One connection with isSending initially clear: no reconnect while a release is under way; at most 32765 threads, so that the 16-bit count cannot overflow.
- Packet reference counts beyond the queue's own reference, `OnRecv`, `OnLeaveServer` and the socket calls.
- `CLanClient` links a third ring, RingBuffer/RingBuffer/RingBuffer.cpp, whose `Peek`, `Dequeue`, `MoveRear` and `MoveFront` keep the indices below capacity + 1 as the server's ring does; `Framing` uses the server's ring.
- The lock, logging and raw-pointer accessors of the ring buffers; only `Enqueue` and `Dequeue` are modelled as concurrent.
- The terminator column of the painted array, the drawing and input of the programs, and `paintStack` with its separate stack class.
- Node fields g, h, f and dir in the optimizer; its nodes are dropped where the code deletes them.
- The growth of packet buffers, and the other copies and earlier versions of stack, pool, queue and packet.
- Winsock, completion ports, TLS slots, threads, logging, profiling, databases, windows and game code.
