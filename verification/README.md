# Verified models of a distributed monitoring platform

The platform collects metrics from hosts, moves them through agents and a broker, and shows
them on a dashboard. Around its plumbing sit ten small algorithms of its own. This project
models those ten and proves what they are for. Each model keeps the branches, constants and
error paths of the code; where the code misses what its comments or tests promise, the model
follows the code, a lemma shows the miss, and another says exactly when the promise is kept.

`dafny verify dfyconfig.toml` checks the project.

| modules | what they model |
|---|---|
| `RingQueue`, `RingRace` | the lock-free ring between the agent's collecting and processing threads, one atomic step at a time |
| `RaftLog`, `LogMatching`, `StaleLeader` | the broker's Raft log, and clusters of such logs over a lossy, reordering network |
| `BitStream`, `Gorilla`, `GorillaCompressor` | the bit writer and reader and the Gorilla time series codec |
| `Heap`, `TopK`, `TopKRuns`, `TopKExpiry` | the streaming top-K processor: a min-heap, its index map, and whole runs of it |
| `HashRing`, `NodeNames`, `ConsistentHash`, `RingWalk` | consistent hashing with virtual nodes and replica lookup |
| `TimeWheel`, `WheelPending`, `WheelChain`, `WheelJourney`, `WheelWork`, `TimeWheels` | the hierarchical time wheel |
| `SlidingWindow`, `Percentile` | the sliding window with running sums |
| `Trie` | the prefix tree on heap nodes, with pruning delete |
| `Framing` | the message framing on QUIC streams |
| `Statistics`, `Regression`, `Analyzer` | the analyzer's anomaly and trend verdicts |
| `Modular`, `Sums`, `Sorting`, `Wrappers` | arithmetic, sums of samples, a stand-in for the library sorts, shared types |

## The main results

- **Ring queue.** In every interleaving of single loads, stores and compare-and-swaps of one
  producer and one consumer, with compare-and-swap failing spuriously, the items handed out are
  a prefix of the items accepted (`RingQueue.FifoTheorem`); the two threads never touch the same
  slot, and the size, empty and full queries agree with the abstract queue when both are idle.
  With a second producer this is lost for every capacity (`RingRace.TwoProducersLoseItems`).
- **Raft log.** In every run of any number of nodes, two logs that hold an entry of the same
  index and term are identical up to it (`LogMatching.LogMatchingTheorem`), and messages that
  arrive late or again do no harm (`LogMatching.StaleDelivery`). A leader that handles a message may
  go on leading if and only if its log still reaches past every known entry of its term
  (`StaleLeader.GoOnIff`).
- **Gorilla.** Decompression inverts compression if and only if the sorted points lie in a
  fragment that a caller can test (`Gorilla.RoundTrip`). The control codes 10, 110 and 1110 go
  out lowest bit first and are read highest bit first, so the fragment is small; with codes
  emitted in reading order the same theorem holds and only the value codes limit it.
- **Top-K.** Every reachable processor is a min-heap whose map is the inverse of its positions.
  A report keeps the result exact if and only if no tracked host falls below one turned away
  (`TopKRuns.ReportExact`), and along every run of reports, batches and resizings without expiry,
  raising of K or falling values the tracked hosts are the K largest (`TopKRuns.TopKTheorem`).
  Cleaning is bound to leave nothing expired if and only if every expired host lies below every fresh
  one (`TopKExpiry.NoneLeftAlwaysIff`).
- **Consistent hashing.** Lookups by binary search equal the nearest virtual node clockwise;
  a change of one node moves only that node's keys; adding and removing a node restores every lookup
  if and only if what it took over was redundant (`HashRing.RestoreIff`); replica lookup lists the
  nodes by distance and ends if and only if enough of them own something (`RingWalk.WalkEndsIff`).
  Two names collide under every hash function if and only if one is the other behind digits that the
  replica numbers can make up (`NodeNames.AlwaysCollideIff`).
- **Time wheel.** In every run the tasks pending and placed are exactly the tasks added
  (`WheelJourney.Conservation`). A task lands on the one level with n^L <= D/I < n^(L+1), after L + 1
  receipts (`WheelJourney.Landing`); under any schedule exactly as many receipts are needed as the
  pending tasks owe (`WheelWork.AnySchedule`), and with one slot a task of at least one interval is
  never placed (`WheelJourney.PlacementEnds`). A placed task that is not cancelled runs on tick
  floor(D/J)+1 of its wheel and occurs once among the tasks that ran (`WheelChain.TaskFate`). Adding a
  key again, with nothing pending, replaces its older task if and only if that task is on no higher
  level (`WheelJourney.ReAddReplaces`).
- **Sliding window.** After any calls the window is exactly the last, unexpired samples; the
  running sums equal fresh ones and their variance is the one taken from the deviations.
- **Trie.** Heap nodes refine a finite map; `Delete` removes exactly one key, prunes every node
  that no longer leads to a word and never loses another word.
- **Framing.** Any message is read back if and only if its lengths fit their fields and its data
  the limit, whole streams come back in order, and a frame that breaks off is never a message.
- **Analyzer.** The regression line is the best of all lines, the correlation lies in [-1, 1] and
  is of size 1 exactly when every point is on that line, and with ten samples, the minimum
  accepted, an anomaly can never be reported; from eleven on it can.

## Model

| member | source | states |
|---|---|---|
| RingQueue.StepProducer | agent/internal/c/lockfree_queue.c:69-100 | every step of an enqueue keeps all indices inside the ring; `AnswersAreTrue`, `CallsBegin` and `EnqueueRetries` say what it answers |
| RingQueue.StepConsumer | agent/internal/c/lockfree_queue.c:110-151 | every step of a dequeue keeps all indices inside the ring; `AnswersAreTrue`, `DequeueRetries` and `DequeueWaits` say what it answers |
| RingQueue.Step | agent/internal/c/lockfree_queue.c:69-151 | one step of either thread, or a call begun by an idle one, keeps the shape |
| RingQueue.FullTest | agent/internal/c/lockfree_queue.c:80-86 | the modular full test answers for the true occupancy, counted without the modulus |
| RingQueue.ProducerWrite | agent/internal/c/lockfree_queue.c:91-94 | the producer's plain writes change no published slot, no free slot and not the slot being cleared |
| RingQueue.ConsumerWrite | agent/internal/c/lockfree_queue.c:144-146 | clearing a slot changes nothing the queue still holds and not the producer's slot |
| RingQueue.ProducerKeepsInv | agent/internal/c/lockfree_queue.c:78-99 | every producer step, spurious failures included, keeps the protocol invariant |
| RingQueue.ConsumerKeepsInv | agent/internal/c/lockfree_queue.c:119-150 | every consumer step keeps the protocol invariant |
| RingQueue.LoadStateKeepsInv | agent/internal/c/lockfree_queue.c:129-135 | a slot seen in state 1 is published, so nothing is read before publication |
| RingQueue.RunKeepsInv | agent/internal/c/lockfree_queue.c:69-151 | the invariant holds along every interleaving |
| RingQueue.ReachableInv | agent/internal/c/lockfree_queue.c:23-41 | it holds in every state reached from `lfq_init` |
| RingQueue.FifoTheorem | agent/internal/c/lockfree_queue.c:69-151 | dequeued items are a prefix of the enqueued ones, and occupancy stays between 0 and capacity - 1 |
| RingQueue.SlotOwnership | agent/internal/c/lockfree_queue.c:89-147 | the threads never hold the same slot; state 1 means published and unconsumed, or being cleared |
| RingQueue.SizeIsOccupancy | agent/internal/c/lockfree_queue.c:153-180 | size, empty and full, read at once, are the true occupancy |
| RingQueue.IdleQueries | agent/internal/c/lockfree_queue.c:153-180 | with both threads idle the queries describe the queue of accepted, not yet returned items |
| RingQueue.RefusalsAreTrue | agent/internal/c/lockfree_queue.c:84-86 | "full" is returned exactly when capacity - 1 slots are taken at the head load, "empty" exactly when none is at the tail load |
| RingQueue.SoloDequeue | agent/internal/c/lockfree_queue.c:110-151 | an undisturbed dequeue on a non-empty queue returns the oldest item in nine steps |
| RingQueue.SoloEnqueue | agent/internal/c/lockfree_queue.c:69-100 | an undisturbed enqueue on a queue with room accepts its item in six steps |
| RingQueue.AnswersAreTrue | agent/internal/c/lockfree_queue.c:69-151 | in every reachable state, whatever step ends a call: it succeeded and its item entered or left the queue, or it answered -1 and the queue was full, or empty, at that moment; items enter and leave in no other way |
| RingQueue.CallsBegin | agent/internal/c/lockfree_queue.c:70-72 | a call refuses exactly negative descriptors before it looks at the queue |
| RingQueue.CallKeepsItem | agent/internal/c/lockfree_queue.c:69-100 | an enqueue keeps the item it was called with until it answers |
| RingQueue.InitAccepts | agent/internal/c/lockfree_queue.c:23-41 | a queue is made exactly for capacities 1 to 4096, with every slot cleared |
| RingQueue.EnqueueRetries | agent/internal/c/lockfree_queue.c:89-99 | an enqueue with room accepts its item after any number of failed compare-and-swaps |
| RingQueue.DequeueRetries | agent/internal/c/lockfree_queue.c:137-150 | a dequeue of a non-empty queue returns the oldest item after any number of failed compare-and-swaps |
| RingQueue.DequeueWaits | agent/internal/c/lockfree_queue.c:129-135 | a dequeue that finds its slot unpublished goes round again and answers nothing |
| RingRace.StepDuo | agent/internal/c/lockfree_queue.c:69-151 | with a second producer every step still keeps all indices inside the ring |
| RingRace.TwoProducersLoseItems | agent/internal/c/lockfree_queue.c:78-96 | for every capacity from 2 on three threads reach an idle state in which `capacity` accepted items were never handed out and a dequeue finds the queue empty: a stalled compare-and-swap succeeded on a wrapped index |
| RaftLog.Log.constructor | broker/internal/models/log.go:42-61 | a new log is empty |
| RaftLog.Log.LastIndex | broker/internal/models/log.go:164-169 | the number of the last entry, which is the length of a log in order |
| RaftLog.Log.GetEntry | broker/internal/models/log.go:192-205 | an entry is found exactly for indices 1 to the length, and carries that index |
| RaftLog.Log.Append | broker/internal/models/log.go:64-83 | the entry gets the number after the last one; a log in order stays in order |
| RaftLog.Log.AppendEntries | broker/internal/models/log.go:86-129 | on a log in order: rejected exactly if the previous entry does not match; panics exactly if an entry it takes over, not the last, is numbered past its place; else the log becomes the merge and stays in order exactly if what it took over is numbered by place. On any log: the check and the passes of the loop |
| RaftLog.Log.Absorb | broker/internal/models/log.go:104-121 | the loop, on any log, up to an entry that is not there |
| RaftLog.HandleIndexed | broker/internal/models/log.go:104-121 | on a log in order the passes make one cut at the first entry the log lacks and one append, or break exactly where a number runs ahead |
| RaftLog.ProgressStep | broker/internal/models/log.go:104-121 | what one pass of the loop adds to that |
| RaftLog.MergeIndexedIff | broker/internal/models/log.go:104-121 | an ordered log stays ordered if and only if the entries it takes over are numbered by their place |
| RaftLog.MergeKeepsAgreeing | broker/internal/models/log.go:108-121 | no entry that agrees with the message is removed, and the message's entries are all there after it |
| RaftLog.MergeNoop | broker/internal/models/log.go:108-117 | a log that agrees with all of a message is left as it is |
| RaftLog.MergeIdempotent | broker/internal/models/log.go:86-129 | handling a message twice is handling it once |
| RaftLog.Log.GetEntries | broker/internal/models/log.go:132-153 | the entries of a range cut to what exists; panics exactly if the start, not past the last number, is more than one past the end |
| RaftLog.Log.Gather | broker/internal/models/log.go:145-150 | the loop that collects the entries that are there |
| RaftLog.SliceNumbers | broker/internal/models/log.go:132-153 | of a log in order a range gives exactly the entries numbered within it, in order and without gaps |
| RaftLog.Log.SetCommitIndex | broker/internal/models/log.go:208-217 | the commit index never passes the last number |
| RaftLog.Log.Truncate | broker/internal/models/log.go:285-299 | keeps the first `index` entries, and order |
| LogMatching.Step | broker/internal/models/log.go:64-129 | elections, appends, sends, deliveries, cuts and restarts keep the cluster's shape |
| LogMatching.AcceptsIsPrefix | broker/internal/models/log.go:91-96 | under Log Matching, the check on one entry decides the whole prefix |
| LogMatching.MergeIsPrefix | broker/internal/models/log.go:104-121 | an accepting log ends as it was or as the sender's log up to the end of the message |
| LogMatching.ProposeKeepsInv | broker/internal/models/log.go:64-83 | a leader's append keeps the cluster invariant |
| LogMatching.DeliverKeepsInv | broker/internal/models/log.go:86-129 | any delivery, however late or repeated, keeps it |
| LogMatching.StepKeepsInv | broker/internal/models/log.go:64-129 | every step keeps it |
| LogMatching.ReachableInv | broker/internal/models/log.go:64-129 | it holds after every run from empty logs |
| LogMatching.LogMatchingTheorem | broker/internal/models/log.go:64-129 | logs with an entry of equal index and term are identical up to that index |
| LogMatching.DeliveryReplicates | broker/internal/models/log.go:86-129 | accepted exactly when the receiver has the sender's prefix, and then it has the whole of what was sent |
| LogMatching.StaleDelivery | broker/internal/models/log.go:86-129 | an older, shorter message from the same log is accepted and changes nothing |
| StaleLeader.GoOnIff | broker/internal/models/log.go:86-129 | a leader that handled a message can go on appending in its term without ever breaking Log Matching if and only if its log covers every known entry of that term |
| StaleLeader.OwnPrefixIsHarmless | broker/internal/models/log.go:86-129 | a message cut from a prefix of its own log never does harm |
| StaleLeader.StaleLeaderBreaksMatching | broker/internal/models/log.go:86-129 | a run of two leaders in which going on breaks Log Matching between two nodes |
| BitStream.BitWriter.WriteBit | pkg/compression/gorilla/gorilla.cpp:15-28 | appends one bit; the buffer has as many bytes as the bits need, each the number that `ByteIsNumber` states |
| BitStream.BitWriter.WriteBits | pkg/compression/gorilla/gorilla.cpp:31-35 | appends the lowest bits of a word, lowest first |
| BitStream.BitReader.ReadBit | pkg/compression/gorilla/gorilla.cpp:65-76 | takes the next bit, 0 past the end |
| BitStream.BitReader.ReadBits | pkg/compression/gorilla/gorilla.cpp:79-87 | takes the next bits as a word |
| BitStream.LowBitsAreRemainder | pkg/compression/gorilla/gorilla.cpp:31-35 | keeping the low bits is the remainder modulo a power of two |
| BitStream.ReadsBack | pkg/compression/gorilla/gorilla.cpp:31-87 | any sequence of writes, followed by anything, reads back modulo two to each width |
| BitStream.PackedWritesReadBack | pkg/compression/gorilla/gorilla.cpp:8-94 | the same from the packed bytes, whose number is the bit count over 8 rounded up |
| BitStream.ByteIsNumber | pkg/compression/gorilla/gorilla.cpp:15-28 | as a number, a byte of the buffer is its eight bits with the earliest weighing least |
| BitStream.StreamIsNumber | pkg/compression/gorilla/gorilla.cpp:15-87 | as a number, the bit stream is its bytes in little-endian order |
| Gorilla.DeltaRoundTrip | pkg/compression/gorilla/gorilla.cpp:143-157 | a delta of deltas is read back exactly if it is 0 or outside -2047..2048, else another value is read |
| Gorilla.ReadingTagsRoundTrip | pkg/compression/gorilla/gorilla.cpp:237-247 | with the codes in reading order every delta of deltas comes back |
| Gorilla.ShortXor | pkg/compression/gorilla/gorilla.cpp:176-180 | the short value form loses the trailing zeros |
| Gorilla.NarrowXor | pkg/compression/gorilla/gorilla.cpp:181-187 | the long form brings back widths 6 to 63 |
| Gorilla.FullXor | pkg/compression/gorilla/gorilla.cpp:181-187 | a width of 64 is cut to 0 and the change is lost |
| Gorilla.XorRoundTrip | pkg/compression/gorilla/gorilla.cpp:166-188 | exactly which XORs are read back |
| Gorilla.TimestampDetermined | pkg/compression/gorilla/gorilla.cpp:249-252 | over wrapped 64-bit arithmetic the timestamp is right exactly when the delta of deltas is |
| Gorilla.PointRoundTrip | pkg/compression/gorilla/gorilla.cpp:138-191 | a point comes back and the stream goes on after it exactly if both its codes survive |
| Gorilla.RestRoundTrip | pkg/compression/gorilla/gorilla.cpp:233-277 | all later points come back exactly if each survives in its turn |
| Gorilla.HeaderBack | pkg/compression/gorilla/gorilla.cpp:126-131 | the count, modulo 2^32, and the first point are read back |
| Gorilla.FirstBytes | pkg/compression/gorilla/gorilla.cpp:126-131 | the first twenty bytes are the count, the first time and the first value, each in little-endian order |
| Gorilla.DecodeLength | pkg/compression/gorilla/gorilla.cpp:209-277 | no bytes are the only error, and the number of points read is the first four bytes, little-endian, but at least one |
| Gorilla.ShortestForm | pkg/compression/gorilla/gorilla.cpp:143-157 | which of the five forms, of 1, 9, 12, 16 and 68 bits, a delta of deltas takes |
| Gorilla.PointCode | pkg/compression/gorilla/gorilla.cpp:138-191 | a point is coded by its second difference in time, wrapped to 64 bits, and the XOR with the value before it |
| Gorilla.UnchangedValue | pkg/compression/gorilla/gorilla.cpp:160-168 | a value costs a single 0 bit exactly if it repeats the one before |
| Gorilla.RoundTrip | pkg/compression/gorilla/gorilla.cpp:103-298 | decoding the packed stream of a sorted list gives that list exactly if it is faithful, for either tag table |
| Gorilla.SteadySecondsAreLost | pkg/compression/gorilla/test/gorilla_test.go:20-41 | points whose first two times are one apart, as in the codec's own test, do not come back |
| GorillaCompressor.WriteDelta | pkg/compression/gorilla/gorilla.cpp:143-157 | writes the code of a delta of deltas |
| GorillaCompressor.WriteXor | pkg/compression/gorilla/gorilla.cpp:166-188 | writes the code of an XOR |
| GorillaCompressor.WritePoint | pkg/compression/gorilla/gorilla.cpp:138-191 | one pass of the compression loop |
| GorillaCompressor.WriteHeader | pkg/compression/gorilla/gorilla.cpp:126-131 | count and first point in full |
| GorillaCompressor.Compress | pkg/compression/gorilla/gorilla.cpp:103-206 | status 1 exactly for no points; else the packed stream of a time-ordered arrangement of the input, starting with the number of points in little-endian bytes |
| GorillaCompressor.ReadDelta | pkg/compression/gorilla/gorilla.cpp:235-247 | reads one delta of deltas off the stream |
| GorillaCompressor.ReadXor | pkg/compression/gorilla/gorilla.cpp:255-272 | reads one XOR off the stream |
| GorillaCompressor.ReadRest | pkg/compression/gorilla/gorilla.cpp:233-277 | the decompression loop |
| GorillaCompressor.Decompress | pkg/compression/gorilla/gorilla.cpp:209-298 | computes the decoding that `Gorilla.RoundTrip` speaks about: status 1 exactly for no bytes, else as many points as the first four bytes say, at least one |
| GorillaCompressor.CompressAndBack | pkg/compression/gorilla/gorilla.cpp:103-298 | compressing and decompressing any points gives them back in time order if and only if that order is faithful |
| Heap.SwapLinked | visualization/internal/cpp/streaming_topk.cpp:322-326 | a swap keeps map and positions inverse and what is tracked unchanged |
| Heap.RiseStep | visualization/internal/cpp/streaming_topk.cpp:319-331 | a swap upwards leaves only the next edge open |
| Heap.SinkStep | visualization/internal/cpp/streaming_topk.cpp:336-358 | a swap with the smaller child settles a level |
| Heap.UpdateOpens | visualization/internal/cpp/streaming_topk.cpp:46-49 | a new value in place opens only the edges at that item |
| Heap.PopLinked | visualization/internal/cpp/streaming_topk.cpp:279-286 | popping forgets exactly the root's host |
| Heap.RootLeast | visualization/internal/cpp/streaming_topk.cpp:67-67 | the root is a tracked host with the least value |
| TopK.Processor.constructor | visualization/internal/cpp/streaming_topk.cpp:8-12 | an open, empty processor |
| TopK.Processor.HeapifyUp | visualization/internal/cpp/streaming_topk.cpp:318-332 | closes the one open edge and keeps what is tracked |
| TopK.Processor.HeapifyDown | visualization/internal/cpp/streaming_topk.cpp:334-359 | closes all edges but the one above the start |
| TopK.Processor.UpdateTracked | visualization/internal/cpp/streaming_topk.cpp:44-53 | down then up restores the heap after any new value; only that host's record changes |
| TopK.Processor.Observe | visualization/internal/cpp/streaming_topk.cpp:42-84 | a report updates, adds, replaces a least host or is discarded, and the heap stays valid |
| TopK.TieIsDiscarded | visualization/internal/cpp/streaming_topk.cpp:60-83 | without room, a new host no larger than any tracked one, ties included, changes nothing; any other change drops a strictly smaller host for it |
| TopK.Processor.ProcessStream | visualization/internal/cpp/streaming_topk.cpp:28-88 | nothing on a closed processor; else cleaning, then one report |
| TopK.Processor.ProcessStreamBatch | visualization/internal/cpp/streaming_topk.cpp:90-147 | one cleaning, then the reports in order |
| TopK.Processor.PopRoot | visualization/internal/cpp/streaming_topk.cpp:367-379 | removes the root, keeping heap and map |
| TopK.Processor.CleanupExpired | visualization/internal/cpp/streaming_topk.cpp:361-386 | drops expired hosts, each a least one, until a least one is fresh |
| TopK.Processor.SetK | visualization/internal/cpp/streaming_topk.cpp:268-291 | the new K largest stay, with their records |
| TopK.Processor.Clear | visualization/internal/cpp/streaming_topk.cpp:231-248 | forgets every host unless closed |
| TopK.Processor.Close | visualization/internal/cpp/streaming_topk.cpp:293-310 | closes for good and forgets every host |
| TopK.Processor.GetValue | visualization/internal/cpp/streaming_topk.cpp:206-229 | found exactly if open and tracked, with the tracked value |
| TopK.Processor.GetTopK | visualization/internal/cpp/streaming_topk.cpp:388-404 | the tracked items, each once, by descending value |
| TopKRuns.ReportExact | visualization/internal/cpp/streaming_topk.cpp:42-84 | without expiry a report keeps the K largest exact if and only if it is admissible |
| TopKRuns.ResizeExact | visualization/internal/cpp/streaming_topk.cpp:268-291 | a new K does so if and only if it is no larger or every host is tracked |
| TopKRuns.BatchExact | visualization/internal/cpp/streaming_topk.cpp:90-147 | a batch of values that never fall keeps the K largest exact |
| TopKRuns.BatchMidway | visualization/internal/cpp/streaming_topk.cpp:105-143 | a batch whose items are admissible each in its turn keeps them exact before and after every item |
| TopKRuns.TameExact | visualization/internal/cpp/streaming_topk.cpp:28-88 | values that never fall are admissible, one by one or in batches |
| TopKRuns.TopKTheorem | visualization/internal/cpp/streaming_topk.cpp:28-147 | along every such run the tracked hosts are min(K, hosts seen) hosts with their latest values and none left out is larger |
| TopKExpiry.WhatStays | visualization/internal/cpp/streaming_topk.cpp:361-386 | a host survives cleaning if it is fresh or a fresh one lies strictly below it, and only if one lies at most level with it |
| TopKExpiry.NoneLeftIff | visualization/internal/cpp/streaming_topk.cpp:382-384 | ties apart, nothing expired is left if and only if every expired host lies below every fresh one |
| TopKExpiry.NoneLeftAlwaysIff | visualization/internal/cpp/streaming_topk.cpp:382-384 | every outcome of a cleaning leaves nothing expired if and only if every expired host lies below every fresh one, ties included |
| TopKExpiry.ExpiredHostStays | visualization/internal/cpp/streaming_topk.cpp:382-384 | a run after which an expired host is still tracked |
| TopKExpiry.TieLeftOpen | visualization/internal/cpp/streaming_topk.cpp:366-366 | on a tie of an expired and a fresh host either outcome is a cleaning |
| HashRing.NearestExists | pkg/hash/consistent_hash.go:127-137 | a ring with a virtual node has a nearest one for every hash |
| HashRing.OwnerUnique | pkg/hash/consistent_hash.go:115-138 | a key has one owner |
| HashRing.StartIsNearest | pkg/hash/consistent_hash.go:127-135 | the binary search with wraparound finds the nearest virtual node clockwise |
| HashRing.AddDisruption | pkg/hash/consistent_hash.go:62-69 | adding a node moves a key only to that node |
| HashRing.RemoveDisruption | pkg/hash/consistent_hash.go:99-112 | removing a node moves only its own keys, if its virtual nodes are its own |
| HashRing.SameLookupsIff | pkg/hash/consistent_hash.go:99-112 | dropping virtual nodes changes no lookup if and only if the next ones left own the same nodes |
| HashRing.RestoreIff | pkg/hash/consistent_hash.go:44-113 | adding then removing restores every lookup if and only if each virtual node taken over was redundant in that sense, and the owner map if and only if none was taken over |
| HashRing.PrefixedNamesCollide | pkg/hash/consistent_hash.go:66-66 | for twelve or more replicas, "x" and "1x" share a virtual node under every hash function |
| NodeNames.ShareNameIff | pkg/hash/consistent_hash.go:66-66 | two nodes have a replica hashed from the same name if and only if one name is the other behind a digit string s with 10^|s| + value(s) below the replica count |
| NodeNames.AlwaysCollideIff | pkg/hash/consistent_hash.go:64-69 | and exactly then they share a virtual node under every hash function |
| NodeNames.OneInFront | pkg/hash/consistent_hash.go:66-66 | "x" and "1x" share a name exactly from twelve replicas on |
| NodeNames.ItoaValue | pkg/hash/consistent_hash.go:66-66 | a decimal form reads as its number and has no leading zero but for 0 |
| HashRing.OwnersDetermined | pkg/hash/consistent_hash.go:44-113 | without collisions the owners depend on the set of nodes, not on the order of calls |
| HashRing.AddKeeps | pkg/hash/consistent_hash.go:62-69 | adding keeps the owner map genuine and complete |
| HashRing.RemoveKeeps | pkg/hash/consistent_hash.go:99-112 | removing keeps it genuine, and complete if no virtual node is shared |
| HashRing.MinimalDisruption | pkg/hash/consistent_hash.go:44-138 | two rings that differ by a node, however built, differ only on that node's keys |
| HashRing.WalkAscends | pkg/hash/consistent_hash.go:169-177 | walking the ring from the start, distances never decrease |
| HashRing.SeenAll | pkg/hash/consistent_hash.go:169-177 | one lap meets every owner |
| HashRing.SeenRanked | pkg/hash/consistent_hash.go:169-177 | nodes are met in order of their distance |
| HashRing.OwnersAreNodes | pkg/hash/consistent_hash.go:149-151 | with a replica each and no collision, the owners are the nodes, so the replica lookup can always end |
| ConsistentHash.Ring.constructor | pkg/hash/consistent_hash.go:27-41 | an empty ring |
| ConsistentHash.Ring.Add | pkg/hash/consistent_hash.go:44-76 | adds the new nodes with their virtual nodes; ring sorted and matching the owner map |
| ConsistentHash.Ring.EnterVirtual | pkg/hash/consistent_hash.go:64-69 | enters a node's virtual nodes |
| ConsistentHash.Ring.Remove | pkg/hash/consistent_hash.go:79-113 | drops the node and its virtual nodes; an unknown node changes nothing |
| ConsistentHash.Ring.Rebuild | pkg/hash/consistent_hash.go:106-112 | keeps the ring entries that still have an owner |
| ConsistentHash.Ring.Locate | pkg/hash/consistent_hash.go:127-135 | the binary search with wraparound |
| ConsistentHash.Ring.Get | pkg/hash/consistent_hash.go:116-138 | an error exactly for the empty ring, else the owner by clockwise distance |
| ConsistentHash.Ring.GetN | pkg/hash/consistent_hash.go:141-180 | n distinct nodes by distance, the key's owner first; errors for an empty ring or too few nodes |
| RingWalk.MetBound | pkg/hash/consistent_hash.go:169-177 | however long the walk, it meets no more nodes than own something |
| RingWalk.WalkEndsIff | pkg/hash/consistent_hash.go:169-177 | the walk for n nodes ends if and only if at least n nodes own something |
| RingWalk.NodeCountEnough | pkg/hash/consistent_hash.go:149-151 | the check against the node count is enough for every n if and only if every node owns something |
| RingWalk.CollidingPairNeverEnds | pkg/hash/consistent_hash.go:141-180 | two nodes with one colliding virtual node pass that check for n = 2, and the walk never ends |
| ConsistentHash.Ring.Collect | pkg/hash/consistent_hash.go:166-179 | the walk ends within one lap |
| TimeWheel.NewInv | pkg/algorithm/time_wheel.go:40-61 | a wheel is made exactly for positive sizes, and a new one is empty and meets the invariant |
| TimeWheel.UnlinkKeepsInv | pkg/algorithm/time_wheel.go:80-86 | cancelling keeps it and forgets the key |
| TimeWheel.EnqueueKeepsInv | pkg/algorithm/time_wheel.go:75-94 | adding keeps it |
| TimeWheel.SlotOfDue | pkg/algorithm/time_wheel.go:214-221 | the slot chosen is the one the due tick reaches, with no rounds to wait |
| TimeWheel.PlaceKeepsInv | pkg/algorithm/time_wheel.go:195-228 | placing keeps the invariant |
| TimeWheel.DueNow | pkg/algorithm/time_wheel.go:156-188 | a tick runs the live tasks that are due, all of them and no others |
| TimeWheel.TickFires | pkg/algorithm/time_wheel.go:152-192 | what has run after a tick |
| TimeWheel.DueDistinct | pkg/algorithm/time_wheel.go:156-188 | no task is run twice on a tick |
| TimeWheel.TickKeepsOnce | pkg/algorithm/time_wheel.go:152-192 | every task in the record occurs once among the tasks that ran, and no other does |
| TimeWheel.TickKeepsInv | pkg/algorithm/time_wheel.go:152-192 | a tick keeps the invariant: seats, circles of 0 and the record of what ran |
| TimeWheel.EnqueueKeepsExact | pkg/algorithm/time_wheel.go:75-94 | with no earlier add of the key pending, the index stays the live tasks |
| TimeWheel.PlaceKeepsExact | pkg/algorithm/time_wheel.go:223-228 | placing keeps the index exact |
| TimeWheel.TickKeepsExact | pkg/algorithm/time_wheel.go:180-188 | a tick keeps the index exact |
| TimeWheel.CountLive | pkg/algorithm/time_wheel.go:125-134 | an exact index has as many entries as there are live tasks |
| TimeWheel.PendingReAddIsNotExact | pkg/algorithm/time_wheel.go:82-93 | a key added again while its first add is pending ends up live twice and indexed once |
| WheelPending.DrainLive | pkg/algorithm/time_wheel.go:194-228 | taking up the channel makes live exactly the pending tasks that fit the wheel, hands on the others and keeps the live ones |
| WheelPending.PendingReAdd | pkg/algorithm/time_wheel.go:82-93 | after an add and taking up the channel the wheel's index names every live task if and only if not both the new task and a pending one of the key fit the wheel; if both do, two tasks of the key are live |
| WheelPending.RemovePending | pkg/algorithm/time_wheel.go:97-104 | a removal leaves no task of the key on the wheel, once the channel is taken up, if and only if none that fits it was pending |
| WheelPending.ExactIsSlots | pkg/algorithm/time_wheel.go:75-110 | an exact index is exactly the unflagged elements in the slots |
| WheelPending.RunsAfter | pkg/algorithm/time_wheel.go:152-192 | an element in slot s has run from tick (s - pos) mod n + 1 from now on and not before; a flagged one never |
| WheelChain.LevelBounds | pkg/algorithm/time_wheel.go:199-212 | a delay of x slots belongs to the level L with n^L <= x < n^(L+1) |
| WheelChain.LevelUnique | pkg/algorithm/time_wheel.go:199-212 | there is only one such level |
| WheelChain.FitsAtLevel | pkg/algorithm/time_wheel.go:203-212 | a task handed down fits a wheel exactly when that is its level |
| WheelChain.OverflowIsHigher | pkg/algorithm/time_wheel.go:203-203 | a task overflows exactly if this is not its level; with one slot, exactly if its delay is at least one interval |
| WheelChain.StepKeepsInv | pkg/algorithm/time_wheel.go:75-228 | every add, removal, receipt and tick on any level keeps the whole chain's invariant |
| WheelChain.ReachableInv | pkg/algorithm/time_wheel.go:75-228 | it holds after every run |
| WheelChain.TaskFate | pkg/algorithm/time_wheel.go:152-228 | in every run a placed task sits on its level; unless cancelled it runs on tick floor(D/J)+1 after it was placed, and it occurs once among the tasks that ran; a cancelled one never does |
| WheelChain.RanWasPlaced | pkg/algorithm/time_wheel.go:180-185 | nothing runs that was not placed |
| WheelChain.WaitBounds | pkg/algorithm/time_wheel.go:152-228 | in every run with ticks J apart, a task that has run waited more than D - J and at most D + J |
| WheelChain.IndexTheorem | pkg/algorithm/time_wheel.go:75-110 | along runs without a pending re-add every wheel's index is exactly its live tasks, which are the unflagged elements in its slots |
| WheelJourney.StepHolds | pkg/algorithm/time_wheel.go:75-228 | every step keeps the tasks pending and placed, but for the task it adds |
| WheelJourney.Conservation | pkg/algorithm/time_wheel.go:75-228 | in every run each key and delay is in the channels and among the tasks ever placed as often as it was added |
| WheelJourney.Travel | pkg/algorithm/time_wheel.go:203-212 | after k receipts a task is in the channel of level k, and every level it came by has forgotten its key |
| WheelJourney.Landing | pkg/algorithm/time_wheel.go:195-228 | with nothing pending on the way, an add and one receipt on each level up to the task's own leave it live and indexed there, and higher levels as they were |
| WheelJourney.PlacementEnds | pkg/algorithm/time_wheel.go:203-212 | from empty channels, with receipts in the order of the levels: some number of them leaves nothing pending if and only if there are at least two slots or the delay is under one interval |
| WheelJourney.RemovedEverywhere | pkg/algorithm/time_wheel.go:97-110 | with exact indices a removal leaves no live task of the key on any level and touches no other key |
| WheelWork.StepWork | pkg/algorithm/time_wheel.go:75-228 | with two slots or more, an add raises the receipts owed by the task's level and one, a receipt lowers them by one, ticks and removals keep them |
| WheelWork.WorkDone | pkg/algorithm/time_wheel.go:194-228 | nothing is owed exactly when nothing is pending |
| WheelWork.AnySchedule | pkg/algorithm/time_wheel.go:137-228 | under any schedule no more receipts take a task than are owed, and nothing is pending exactly when all have been made |
| WheelJourney.ReAddReplaces | pkg/algorithm/time_wheel.go:75-94 | with nothing pending and exact indices, the older task of a re-added key on level l stays live if and only if l is above the new task's level |
| TimeWheels.Wheels.constructor | pkg/algorithm/time_wheel.go:40-61 | a chain of one wheel, of any positive size |
| TimeWheels.Wheels.AddTask | pkg/algorithm/time_wheel.go:75-94 | takes the chain's step; a negative delay does nothing |
| TimeWheels.Wheels.RemoveTask | pkg/algorithm/time_wheel.go:97-110 | cancels the key on every level |
| TimeWheels.Wheels.HasTask | pkg/algorithm/time_wheel.go:113-122 | true exactly if some level's index has the key |
| TimeWheels.Wheels.TaskCount | pkg/algorithm/time_wheel.go:125-134 | the index sizes of all levels together; with exact indices the number of live tasks on all levels |
| TimeWheels.SizesAreLive | pkg/algorithm/time_wheel.go:125-134 | exact indices together have one entry for every live task of the chain |
| TimeWheels.Wheels.Receive | pkg/algorithm/time_wheel.go:195-228 | places the task, or hands it to the next level, made on first use |
| TimeWheels.Wheels.TickHandler | pkg/algorithm/time_wheel.go:152-192 | runs exactly what is due under the hand, no task twice, and moves on |
| TimeWheels.RunSlot | pkg/algorithm/time_wheel.go:160-188 | the walk over a slot's list |
| SlidingWindow.StartUnique | pkg/algorithm/sliding_window.go:51-79 | the calls and the clock determine where the window starts |
| SlidingWindow.CleanedStart | pkg/algorithm/sliding_window.go:358-380 | dropping the expired front gives the window of the new time |
| SlidingWindow.PushStart | pkg/algorithm/sliding_window.go:61-73 | dropping one from a full window gives the window with the new sample |
| SlidingWindow.RunningVariance | pkg/algorithm/sliding_window.go:223-229 | the variance from the sums equals the one from the deviations and is never negative, so the clamp is dead |
| SlidingWindow.AgeLimit | pkg/algorithm/sliding_window.go:363-369 | a sample exactly as old as allowed still counts, an older one does not |
| SlidingWindow.Window.constructor | pkg/algorithm/sliding_window.go:29-48 | an empty window of any size that does not panic |
| SlidingWindow.Window.CleanExpired | pkg/algorithm/sliding_window.go:358-380 | the window of the present time, sums kept exact |
| SlidingWindow.Window.Expire | pkg/algorithm/sliding_window.go:364-373 | finds the first sample not expired and takes the others out of both sums |
| SlidingWindow.Window.Push | pkg/algorithm/sliding_window.go:61-73 | makes room and appends |
| SlidingWindow.Window.Add | pkg/algorithm/sliding_window.go:51-79 | the window stays the last unexpired samples, at most `size`, and the sums equal fresh ones |
| SlidingWindow.Window.AddBatch | pkg/algorithm/sliding_window.go:82-113 | the same for a batch under one time |
| SlidingWindow.Window.Average | pkg/algorithm/sliding_window.go:116-128 | the mean of exactly those samples |
| SlidingWindow.Window.StandardDeviation | pkg/algorithm/sliding_window.go:211-230 | the root of their population variance |
| SlidingWindow.Window.Percentile | pkg/algorithm/sliding_window.go:240-266 | a value of the window that stands at the percentile's rank: of n samples at most p percent of n - 1 are below it and more are at or below it |
| Percentile.Pick | pkg/algorithm/sliding_window.go:250-265 | sorting and indexing finds the value of that rank, said without sorting, and how many values lie below and at or below it in terms of p |
| Percentile.PositionMeans | pkg/algorithm/sliding_window.go:256-262 | the position is the whole part of p percent of n - 1; the first for a negative p, the last from 100 on |
| Percentile.RankedIsPercentile | pkg/algorithm/sliding_window.go:255-265 | the value at that position has at most p percent of n - 1 values below it and more at or below it |
| Percentile.RankedInOrder | pkg/algorithm/sliding_window.go:255-265 | a rank has one value and a higher rank no lower one |
| Percentile.PositionMonotone | pkg/algorithm/sliding_window.go:256-262 | with truncation and clamping, a higher percentile never looks at a lower position |
| Percentile.PercentilesInOrder | pkg/algorithm/sliding_window.go:269-286 | of the same window, median, 90th, 95th and 99th percentile never cross |
| Trie.ByteWalkIsRuneWalk | pkg/algorithm/prefix_tree.go:104-104 | deleting byte by byte follows the path that was inserted rune by rune exactly for ASCII keys |
| Trie.Utf8Form | pkg/algorithm/prefix_tree.go:104-104 | the bytes a key is walked by: one to four a rune, the first telling the length, the others in 80 to BF, together the rune |
| Trie.DeletePromise | pkg/algorithm/prefix_tree.go:78-84 | `Delete` drops the key and nothing else if and only if the key is ASCII or neither it nor the word its bytes spell is stored |
| Trie.PathIffWord | pkg/algorithm/prefix_tree.go:64-76 | a path other than the root exists exactly when some word starts with it |
| Trie.Trie.constructor | pkg/algorithm/prefix_tree.go:22-28 | the empty map |
| Trie.Trie.Extend | pkg/algorithm/prefix_tree.go:37-42 | one step of insertion |
| Trie.Trie.Insert | pkg/algorithm/prefix_tree.go:31-46 | updates one key and no other |
| Trie.Trie.Search | pkg/algorithm/prefix_tree.go:49-61 | looks the key up in the map |
| Trie.Trie.StartsWith | pkg/algorithm/prefix_tree.go:64-76 | true exactly for the empty prefix or a prefix of some word |
| Trie.Trie.DeleteFrom | pkg/algorithm/prefix_tree.go:87-124 | removes the word, tells whether the node it was given is now empty, and leaves no other node unused |
| Trie.Trie.Delete | pkg/algorithm/prefix_tree.go:79-84 | removes exactly the word its bytes spell and prunes; the result says whether that was the only word |
| Trie.Trie.CollectWords | pkg/algorithm/prefix_tree.go:149-159 | adds all words at or below a node |
| Trie.Trie.FindAllWithPrefix | pkg/algorithm/prefix_tree.go:127-146 | exactly the words that start with the prefix, with their values |
| Trie.Trie.CountWords | pkg/algorithm/prefix_tree.go:400-414 | the number of words that start with the node's path |
| Framing.NumberBack | pkg/quic/protocol.go:117-118 | a number that fits comes back from its bytes |
| Framing.BytesBack | pkg/quic/protocol.go:71-79 | bytes come back from their number |
| Framing.FirstWeighsMost | pkg/quic/protocol.go:117-118 | the first byte weighs most |
| Framing.BigEndianAt | pkg/quic/protocol.go:71-79 | byte i of a number in n bytes is its base-256 digit n - 1 - i |
| Framing.FrameBytes | pkg/quic/protocol.go:64-99 | every byte of a frame: version 1, kind, data length and timestamp in big-endian order, identifier length, identifier, data |
| Framing.HeadFields | pkg/quic/protocol.go:110-119 | every header field is read from where it was written, negative timestamps included |
| Framing.ReadInverts | pkg/quic/protocol.go:103-151 | whatever message is read, its frame is exactly the bytes used up |
| Framing.RoundTrip | pkg/quic/protocol.go:49-151 | a frame followed by anything is read back if and only if the lengths fit their fields and the data the limit |
| Framing.ReadExtends | pkg/quic/protocol.go:103-151 | reading looks at no byte past the frame |
| Framing.Truncated | pkg/quic/protocol.go:106-142 | a frame that breaks off anywhere gives an error, and which one |
| Framing.WrongVersion | pkg/quic/protocol.go:111-114 | a header of another version is refused after its fifteen bytes |
| Framing.StreamRoundTrip | pkg/quic/protocol.go:49-151 | accepted messages with fitting lengths, written one after another, are read in order with nothing left over |
| Framing.ReaderIsLaxer | pkg/quic/protocol.go:121-124 | exactly which frames the reader accepts though the writer refuses to send them |
| Framing.WriteMessage | pkg/quic/protocol.go:49-100 | refuses exactly what is over the limit, else appends the frame, whose bytes `FrameBytes` gives |
| Framing.ReadMessage | pkg/quic/protocol.go:103-151 | takes one message, or fails as the bytes demand, leaving the rest |
| Statistics.DeviationBound | visualization/internal/analysis/analyzer.go:366-388 | the last value's squared deviation is at most n - 1 variances |
| Statistics.ThreeSigma | visualization/internal/analysis/analyzer.go:351-354 | the z-score test is a comparison of squares |
| Statistics.ScoreMeans | visualization/internal/analysis/analyzer.go:337-362 | the score is not negative and its square times the variance is the squared deviation of the last value; an anomaly is reported exactly if that deviation squared is over nine variances |
| Statistics.TenNeverReport | visualization/internal/analysis/analyzer.go:315-363 | with at most ten samples no anomaly is ever reported |
| Statistics.ElevenCanReport | visualization/internal/analysis/analyzer.go:315-363 | for every larger number of samples one spike is reported |
| Regression.LeastSquares | visualization/internal/analysis/analyzer.go:291-303 | no line leaves a smaller sum of squares than the one through the means with the computed slope |
| Regression.NormalEquation | visualization/internal/analysis/analyzer.go:299-303 | the slope solves the normal equation, also where all x agree |
| Regression.Explained | visualization/internal/analysis/analyzer.go:305-309 | that line leaves one less the squared correlation of y's spread |
| Regression.ConfidenceShare | visualization/internal/analysis/analyzer.go:267-312 | the confidence squared is the share of y's spread, in ten-thousandths, that the line explains |
| Regression.CorrelationSign | visualization/internal/analysis/analyzer.go:303-309 | where y varies, correlation and slope have the same sign |
| Regression.DegenerateCases | visualization/internal/analysis/analyzer.go:299-309 | level y gives correlation 1; where all x agree slope and correlation are 0 |
| Regression.CorrelationBounded | visualization/internal/analysis/analyzer.go:267-312 | correlation in [-1, 1] and confidence in [0, 100] |
| Regression.FullConfidence | visualization/internal/analysis/analyzer.go:267-312 | confidence 100 exactly when every point lies on the best line |
| Regression.PositionsSpread | visualization/internal/analysis/analyzer.go:241-242 | two samples already spread in x, so a trend never takes the branch of equal x values |
| Regression.SlopeOfLine | visualization/internal/analysis/analyzer.go:303-303 | on points of a line the slope is that line's |
| Regression.PredictionOnLine | visualization/internal/analysis/analyzer.go:264-265 | on a straight trend of n samples the forecast is the line n steps past the last one |
| Analyzer.GetDataInRange | visualization/internal/analysis/analyzer.go:196-208 | exactly the samples strictly inside the range |
| Analyzer.InRangeConcat | visualization/internal/analysis/analyzer.go:201-205 | choosing goes sample by sample, so order and repetitions stay |
| Analyzer.FilterMetricData | visualization/internal/analysis/analyzer.go:211-222 | exactly the samples with a metric of the name, in order |
| Analyzer.HavingConcat | visualization/internal/analysis/analyzer.go:211-222 | filtering goes sample by sample, so order and repetitions stay |
| Analyzer.Scan | visualization/internal/analysis/analyzer.go:214-219 | the first metric of the name |
| Analyzer.Extract | visualization/internal/analysis/analyzer.go:327-335 | the metric's values over the chosen samples |
| Analyzer.ExtractPoints | visualization/internal/analysis/analyzer.go:237-249 | positions and values |
| Analyzer.SeriesAt | visualization/internal/analysis/analyzer.go:237-249 | the i-th value is the first metric of the name in the i-th sample |
| Analyzer.CalculateMeanStdDev | visualization/internal/analysis/analyzer.go:366-388 | mean and root of the population variance, zeros for no values |
| Analyzer.LinearRegression | visualization/internal/analysis/analyzer.go:277-312 | slope and correlation, zeros for fewer than two points |
| Analyzer.AnalyzeTrend | visualization/internal/analysis/analyzer.go:225-274 | an error exactly for fewer than two samples with the metric; else direction, slope, correlation, forecast and a confidence in [0, 100] |
| Analyzer.Judge | visualization/internal/analysis/analyzer.go:337-362 | the z-score and the verdict, never an anomaly for ten values or fewer |
| Analyzer.DetectAnomaly | visualization/internal/analysis/analyzer.go:315-363 | an error exactly for fewer than ten samples with the metric; with exactly ten never an anomaly |

## Where code and promise differ

- The Gorilla test expects points one second apart to come back; by `Gorilla.SteadySecondsAreLost` they do not.
- A log does not compare a message's terms with a term of its own, so nothing in it makes a leader step down: `StaleLeader.StaleLeaderBreaksMatching` shows the harm and `StaleLeader.GoOnIff` when there is none.
- `AppendEntries` trusts the numbers of the entries it is given; `RaftLog.Log.AppendEntries` says which numbers make it panic and which leave the log out of order.
- `cleanup_expired` says that nothing else can be expired once the heap's top is fresh. The heap is ordered by value, so this is not so: see `TopKExpiry.ExpiredHostStays` and, for when it is, `TopKExpiry.NoneLeftAlwaysIff`. Only ties of an expired and a fresh host are left to the heap's layout.
- Virtual nodes are hashed from the replica number followed by the name, so a name and the same name behind digits can share one under every hash function: exactly if the replica numbers reach far enough (`NodeNames.AlwaysCollideIff`), for "x" and "1x" from twelve replicas on (`NodeNames.OneInFront`).
- `GetN` never ends when it wants more nodes than own something: see `RingWalk.CollidingPairNeverEnds` and `RingWalk.WalkEndsIff`.
- `AddTask` on the time wheel promises to replace a task of the same key. With nothing pending it replaces the ones on levels up to the new task's own and leaves those above (`WheelJourney.ReAddReplaces`). On a wheel that both fit, neither it nor `RemoveTask` reaches an add that is still pending (`WheelPending.PendingReAdd`, `WheelPending.RemovePending`). A task too long for the wheel meets the same question on the next one, so there the schedule decides: if the first is placed before the second is handed over, it is replaced.
- With one slot a task of at least one interval is handed on for ever (`WheelJourney.PlacementEnds`).
- `Delete` on the trie returns whether the trie became empty, not whether the key was found, and walks bytes where insertion walks runes (`Trie.DeletePromise`).
- The analyzer accepts ten samples, one fewer than its test needs to act.

## Left out

- RaftLog.Log.Truncate: on a log out of order, an index past the length but not past the last number makes the program reslice into old memory, or panic; this is excluded.
- RaftLog.Log.Append: the log file, its saving and loading, and `Snapshot`, which drops a prefix without moving the offsets that lookups use.
- LogMatching.Step: elections are reduced to one leader per term, and a node that handles a message, truncates or restarts no longer leads.
- RingQueue.FifoTheorem: one producer and one consumer, as the agent runs them; `RingRace.TwoProducersLoseItems` shows that it does not extend to two producers, and several consumers are not modelled.
- RingQueue.Step: interleavings of a sequentially consistent memory; weaker orderings, `lfq_destroy` and the null checks are not modelled.
- GorillaCompressor.Compress: allocation failures (statuses 2 and 3); signed overflow wraps and shift counts are taken modulo 64, where the language leaves both open.
- TopK.Processor.ProcessStream: values are reals without NaN, the clock is a parameter, callbacks and `get_stats` are left out.
- TopK.Processor.GetTopK: the order of equal values is whatever the sort makes of it.
- ConsistentHash.Ring.GetN: its precondition is that the source neither panics, as it does for negative n on a ring that is not empty, nor loops for ever, which is exactly the condition of `RingWalk.WalkEndsIff`.
- ConsistentHash.Ring.Collect: the same condition for the walk alone.
- ConsistentHash.Ring.Get: the hash function is a parameter; CRC-32, `GetDistribution` and the plain accessors would only add easy members.
- TimeWheels.Wheels.constructor: sizes that are not positive, for which the program makes no wheel (`TimeWheel.New` returns none).
- TimeWheels.Wheels.AddTask: the channel's capacity of 1000 and blocking on it, `Start`, `Stop` and the tickers. Cancelling the older task and the send that follows after the lock is released are one step here, as is each hand-over, so steps of other threads between the two are not modelled.
- SlidingWindow.Window.Add: the adaptive mode and `Reset`, which leave the sums out of step with the values, and a clock that runs backwards; with size 0 the source panics.
- SlidingWindow.Window.Average: floating point rounding, here and in the analyzer; minimum, maximum and rate would only add easy members.
- Trie.Trie.Insert: keys that are not valid UTF-8; `PatriciaTrie`, `RadixTree`, export, import and depth statistics.
- Framing.ReadMessage: no data and empty data are one value; write errors of the stream and the payload encodings are not modelled.
- Analyzer.LinearRegression: the square root is a parameter with its defining property, and x and y have equal lengths, as the only caller passes them.
- Analyzer.DetectAnomaly: caching, alert rules and the description text.
- Redis storage, message queues, Kafka, gRPC, the web interface, collectors and configuration, whose results depend on other systems.
