# Verified models of a distributed-systems study repository

A Dafny project beside the Go code it models. Each module follows one source file: where the Go code
changes maps, slices, pointers or struct fields, the module has a class or method with loops that does
the same, proved against a specification function; where it computes, the module has functions and
lemmas. `dafny verify dfyconfig.toml` checks everything.

## What is modelled

**Payment router** (`HeapOrder`, `ChannelGraph`, `Routes`, `RouteTerms`, `PathHeap`, `PaymentRouter`). Backwards
Dijkstra over channels whose cost is a function of the amount (section "HTLC Fees" of BOLT #7), with
int64 and uint32 wrap-around written out. The indexed heap is a class whose nodes carry their positions;
`FindPath` keeps the source's four maps, and ghost state says which walk each entry stands for. The main
result compares the answer with all walks of any length. It needs the amounts to stay within int64
(`WithinRange`) and every enabled channel's minimum to be at most the payment (`MinimumsMet`); a
family of three-channel networks, one for every payment below a minimum, shows that no weaker condition on
the minimums would do.

**Recursive length prefix** (`BigEndian`, `Rlp`, `RlpForms`, `RlpReader`, `RlpShapes`). Encoder and offset-based decoder of
Appendix B of the Ethereum Yellow Paper, and the streaming reader over a shared byte source with nested
limits. The decoder is total here: an index outside the slice, and a list end of 2^63 or more, are
outcomes of their own. Decoded values are compared by a normal form, because the source returns `""`, a
bare byte, a slice or a list depending on the encoding, and an empty slice for the empty list.

**URL checker** (`UrlChecker`) and **task scheduler** (`TaskScheduler`, `SchedulerRuns`). `RunChecker` as
a step system of feeder, bounded job channel, workers, result channel, cancellation and caller; a run is
any sequence of enabled steps. `TaskScheduler.Run` as a program counter over peek, unlock, wait and pop,
with tasks added, time passing and other goroutines removing tasks between any two steps; when such a
removal can lead to an early execution is characterised exactly.

**Token bucket** (`RateBounds`, `RateTerms`, `TokenBucket`, `LimiterRuns`). The limiter as a class over its
bucket map, in real arithmetic, with the two clock readings of a request kept apart; histories of requests are
replayed by a function, about which the rate bounds are proved, and interleaved calls for many keys are
tied to the histories of the single keys.

**Pointer structures** (`LinkedList`, `ListEdits`, `SearchTree`, `Bst`, `LruCache`, `LruRuns`, `LruTerms`,
`MerklePaths`, `MerkleTerms`, `Merkle`, `SparseMerkle`, `SparseProofs`, `SparseRoot`, `SparseTruth`, `Trie`,
`RoutingTable`, `BinaryHeap`, with `MapValues`). Objects with mutable references, each tied to a value: a
node sequence, a tree, a recency list, levels of hashes, a set of words, a map of routes. A field the source
never writes after construction is a `const`.

**Leveling robot** (`RobotLeveling`, `RobotTurns`). The controller proved against the rule it follows,
and the closed loop of controller and factory rules with two decreasing measures.

The modules named after terms and forms (`RouteTerms`, `RateTerms`, `LruTerms`, `MerkleTerms`, `RlpForms`), and
`RlpShapes`, `SparseRoot` and `SparseTruth`, say what the others come to in plain fields, numbers and earlier
answers, without their definitions.

Parameters stand for what the programs take from outside: the hash function, clock readings, random
choices, the order of a map iteration, and the results of HTTP checks.

## Where code and comments differ

* data-structures/merkle.go:348-349 says that addressing inner nodes of the sparse tree by the full leaf
  key works because siblings differ in one bit. Two keys below the same inner node address it
  differently, so the proof of a key set earlier can stop verifying, and the root can depend on the order
  of two `Set` calls. `SparseProofs.EarlierProofSurvives` and `SparseProofs.OrderMatters` say exactly when, and
  `SparseTruth.RootIsTrueExactly` when the root stands for both values at all.
* algorithms/serialization.go:283-301 hands out a reader for a list's payload. What is not read through it is
  not skipped: `RlpShapes.UnreadItemsComeNext`.
* practice/payment_router.go:216 says that a popped node's path is optimal. That needs
  `MinimumsMet`: `PaymentRouter.MinimumHidesRoute`.
* practice/task_scheduler.go:158-181 pops what it takes to be what it peeked at. With a second goroutine
  removing tasks it may pop another one, before its time: `SchedulerRuns.SecondRemoverMakesEarly`, and
  exactly when: `SchedulerRuns.CoveredIsExact`.
* data-structures/trie.go:75 speaks of any word with the prefix; the empty prefix is found even in an
  empty trie.

## Model

| member | source | states |
|---|---|---|
| ChannelGraph.IncomingExact | practice/payment_router.go:133-139 | within the limit no int64 operation of the fee wraps, so the incoming amount is the amount plus the base fee plus amount * PPM / 1,000,000 rounded down |
| ChannelGraph.IncomingMonotone | practice/payment_router.go:133-139 | an enabled edge never shrinks an amount and needs no less for a larger one |
| ChannelGraph.PassingFits | practice/payment_router.go:142-160 | an amount that passes the filters fits the limit and is never the MaxInt64 mark of an unreached node |
| ChannelGraph.Graph.AddEdge | practice/payment_router.go:66-70 | the edge joins the edge set, its ends join the nodes, every edge stays listed under its own source |
| PathHeap.Heap.Less | practice/payment_router.go:98-103 | the comparison is the strict order by amount, then by timelock |
| PathHeap.Heap.Swap | practice/payment_router.go:105-109 | two positions trade places and both nodes' index fields follow |
| PathHeap.Heap.Push | practice/payment_router.go:111-116 | heap order, exact index fields, and membership grows by just the new node |
| PathHeap.Heap.Pop | practice/payment_router.go:118-126 | the node removed has a least amount and, among equal amounts, a least timelock; its index becomes -1; all others stay, indexed exactly |
| PathHeap.Heap.Fix | practice/payment_router.go:236-240 | after one node's key changed in place, heap order and exact indices are restored with the same members |
| PathHeap.Heap.LeastOfAll | practice/payment_router.go:98-103 | no member goes before the root of a valid heap |
| PaymentRouter.BuildReverseGraph | practice/payment_router.go:265-274 | the reverse map lists every edge of the graph under the node it leads to, and nothing else |
| PaymentRouter.ReconstructPath | practice/payment_router.go:281-313 | following the breadcrumbs ends, and yields exactly the hops of the walk they spell out |
| PaymentRouter.PushOrUpdate | practice/payment_router.go:235-250 | the in-heap map stays exactly the heap's contents, with the one node queued at its new amount |
| PaymentRouter.PopCheapest | practice/payment_router.go:208-212 | the node taken is queued with a least amount; heap and in-heap map lose exactly that node |
| PaymentRouter.PopOne | practice/payment_router.go:210-218 | a popped node was never popped before, and no node still unsettled can be reached with less |
| PaymentRouter.TakeEdge | practice/payment_router.go:220-250 | a relaxed edge never comes from a settled node (so each node is popped once), and distance, breadcrumb and queue entry then describe the new walk |
| PaymentRouter.PassOver | practice/payment_router.go:220-225 | an edge that is not taken offered nothing better than what is recorded |
| PaymentRouter.RelaxInto | practice/payment_router.go:220-256 | after the inner loop no edge into the popped node offers its source less than it has, and heap, distances and breadcrumbs agree |
| PaymentRouter.Expand | practice/payment_router.go:220-256 | with all edges into the popped node relaxed, it counts as settled |
| PaymentRouter.Search | practice/payment_router.go:176-260 | the main loop ends, with or without the source popped, in a state where every known node has an acyclic payable walk and every edge into a settled node is relaxed |
| PaymentRouter.FindPath | practice/payment_router.go:173-261 | in the fields alone: every hop of a returned route belongs to an enabled channel whose minimum, maximum and capacity * 1000 allow the amount that enters it; with every enabled minimum at most the payment the route sends the least over all walks of any length that meet these inequalities, and ErrNoPath is returned exactly when no walk meets them |
| RouteTerms.EdgeInTerms | practice/payment_router.go:133-160 | the filters and the fee together are the plain inequalities over fee, minimum, maximum, capacity and the disabled flag |
| RouteTerms.PayableInTerms | practice/payment_router.go:142-233 | a walk the router can use meets the inequalities at its amounts |
| RouteTerms.DeliversIsPayable | practice/payment_router.go:142-233 | and a walk that meets them at any amounts is one the router can use, with those amounts |
| RouteTerms.RouteInTerms | practice/payment_router.go:281-313 | the hops reported are those of the walk, with what enters and leaves each channel, and a cheapest walk sends least among all that deliver |
| RouteTerms.NoRouteInTerms | practice/payment_router.go:258-260 | there is a usable walk exactly if some walk delivers the payment in these terms |
| PaymentRouter.MinimumHidesRoute | practice/payment_router.go:146-149 | for every payment below a channel minimum with room in int64 there is a network within range in which every completed search reports no path although a payable walk exists: no weaker condition on the minimums would do |
| PaymentRouter.MinimumHidesRouteOf1000 | practice/payment_router.go:146-149 | the instance with a payment of 1000 and a minimum of 1005 |
| Routes.LabelsAreLeast | practice/payment_router.go:214-218 | in a relaxed state any payable walk costs at least the bound of the unsettled nodes or the label of its source |
| Routes.FinishedIsOptimal | practice/payment_router.go:214-218 | stopping at the source means cheapest among all walks; stopping empty means that none is payable; both directions |
| Routes.RelaxOne | practice/payment_router.go:220-233 | extending the popped node's walk by a better edge keeps all walks payable, acyclic and in settling order |
| Routes.HopAccounts | practice/payment_router.go:285-310 | the hops form a connected chain to the destination; each fee is the channel's fee on the forwarded amount, and each forwarded amount is what the next hop needs |
| Routes.FeesAddUp | practice/payment_router.go:281-313 | the payment plus all fees is the amount sent |
| HeapOrder.SwapUp | data-structures/heap.go:88-98 | one step of sifting up moves the only disorder to the parent |
| HeapOrder.SwapLeastChild | data-structures/heap.go:132-157 | one step of sifting down with the least child moves the only disorder to that child |
| HeapOrder.RootIsLeast | data-structures/heap.go:59-65 | nothing in a heap goes before its root |
| BinaryHeap.IntHeap.SiftDown | data-structures/heap.go:35-54 | from a start position whose subtrees are in order, order is restored from there on and the elements are permuted |
| BinaryHeap.IntHeap.Push | data-structures/heap.go:88-98 | min and max heap: heap order is kept and exactly the new element is added |
| BinaryHeap.IntHeap.Pop | data-structures/heap.go:103-121 | the element returned is a greatest of the max heap, a least of the min heap; exactly it is removed, order is kept; an empty heap says so |
| BinaryHeap.IntHeap.Heapify | data-structures/heap.go:163-174 | any slice becomes a heap of the same elements |
| BinaryHeap.SiftStep | data-structures/heap.go:41-52 | picking by two strict comparisons and swapping keeps every parent above the hole in order |
| BigEndian.EncodeBigEndian | algorithms/serialization.go:126-137 | eight bytes with leading zeros stripped are the shortest form of the number |
| BigEndian.DecodeBigEndian | algorithms/serialization.go:143-148 | up to eight bytes are read as the big-endian value, negative from 2^63 on |
| BigEndian.MinimalRoundTrip | algorithms/serialization.go:126-148 | decoding the shortest form gives the number back, and the form has no leading zero |
| BigEndian.ValueRoundTrip | algorithms/serialization.go:126-148 | a form without leading zero is the shortest form of its value |
| BigEndian.MinimalLength | algorithms/serialization.go:122-125 | a uint64 needs between one and eight bytes |
| Rlp.RLPEncodeString | algorithms/serialization.go:54-70 | the byte string gets its own byte, a short header or a long header as its length demands |
| Rlp.RLPEncodeList | algorithms/serialization.go:73-95 | encoded items are joined behind a header for their total length |
| Rlp.RLPEncodeUint64 | algorithms/serialization.go:98-111 | zero, small and larger numbers are encoded like their shortest byte strings |
| Rlp.UintIsString | algorithms/serialization.go:98-111 | every number shares its code with a byte string: the identification the round trip is up to |
| Rlp.RLPEncode | algorithms/serialization.go:27-51 | nested values are encoded exactly if no unsupported type occurs anywhere in them |
| Rlp.RLPDecodeItem | algorithms/serialization.go:152-217 | the decoding loops compute the total decoder on every input, out-of-range slices and oversized list ends included |
| Rlp.RLPDecode | algorithms/serialization.go:115-118 | decoding a buffer decodes the item at its start and ignores what follows |
| Rlp.RoundTrip | algorithms/serialization.go:27-217 | wherever an encoding stands in a buffer, decoding there yields the normal form of the value and consumes exactly the encoding |
| Rlp.RoundTripAll | algorithms/serialization.go:190-216 | the items of a list payload decode one after the other to the payload's end |
| Rlp.NormInjective | algorithms/serialization.go:161-171 | the decoder's result types still tell all different values apart |
| Rlp.SameTreeSameCode | algorithms/serialization.go:27-51 | values that are only different spellings of one tree have one encoding |
| Rlp.PrefixFree | algorithms/serialization.go:27-111 | one encoding starts another exactly if the values are the same tree, and then the encodings are equal |
| RlpForms.EncodingIsStandard | algorithms/serialization.go:27-111 | in plain numbers: below 128 a byte stands for itself; strings start with 128 or 183 plus a length, lists with 192 or 247 plus one, long lengths without leading zeros in at most eight bytes |
| RlpForms.KnownStrings | algorithms/serialization.go:54-111 | the code of "dog", of the empty string, of bytes around 128, of 15 and of 1024 |
| RlpForms.DecodedForm | algorithms/serialization.go:161-171 | which dynamic type an encoding comes back as, the empty list as an empty slice |
| RlpForms.NothingToDecode | algorithms/serialization.go:153-157 | no data is one error, exactly, and an offset past the data the other |
| RlpForms.ConsumesWithin | algorithms/serialization.go:152-217 | on any data whatever, what a successful decoding reports as consumed lies within the data |
| RlpForms.MoreBehind | algorithms/serialization.go:152-217 | what has been decoded is decoded the same with any more data behind it |
| RlpForms.TruncatedIsRefused | algorithms/serialization.go:152-217 | an encoding that breaks off at any point is never taken for an item |
| RlpForms.LooseString | algorithms/serialization.go:178-185 | a string behind a longer length field than it needs is taken as well, always as a slice |
| RlpForms.LooseList | algorithms/serialization.go:187-202 | a list whose last item reaches past its payload is taken as well, and reports its own length |
| RlpReader.RLPReader.ReadFull | algorithms/serialization.go:230-240 | a full read through nested limits takes the bytes, or what there is and fails, and lowers every limit alike |
| RlpReader.RLPReader.ReadString | algorithms/serialization.go:230-270 | one string is taken off the stream, or the right error returned, with the stream left where the source leaves it; what that is in front of any encoded item, `RlpShapes.StringExactly` says |
| RlpReader.RLPReader.ReadList | algorithms/serialization.go:273-303 | a list header is taken off and a reader limited to its payload returned, sharing the outer stream |
| RlpReader.SharedState | algorithms/serialization.go:283-301 | what is read through an inner reader is read from the outer one as well |
| RlpReader.StringIsRead | algorithms/serialization.go:230-270 | an encoded string at the front of the stream is read back and exactly it is consumed |
| RlpReader.ListIsOpened | algorithms/serialization.go:273-303 | an encoded list is opened with exactly its payload allowed |
| RlpReader.ReadsItem | algorithms/serialization.go:230-303 | reading by the shape of a value yields its strings in order and leaves exactly what follows the encoding |
| RlpReader.ReaderAgreesWithDecoder | algorithms/serialization.go:152-303 | reader and decoder see the same strings and consume the same number of bytes |
| RlpReader.ReadShape | algorithms/serialization.go:230-303 | the reader objects, driven by a shape, do what the stream function says |
| RlpShapes.FullReadExactly | algorithms/serialization.go:230-240 | a full read succeeds exactly if the bytes are there and every limit allows them; otherwise it is EOF exactly when no byte is to be had, and an unexpected EOF when some are |
| RlpShapes.StringExactly | algorithms/serialization.go:230-270 | in front of any encoded item: the string, exactly consumed, if and only if it is one; in front of a list the error, with just the first byte taken |
| RlpShapes.ListExactly | algorithms/serialization.go:273-303 | in front of any encoded item: a reader limited to exactly the payload if and only if it is a list; in front of a string the error, with just the first byte taken |
| RlpShapes.DriveMatches | algorithms/serialization.go:230-303 | reading any encoded items by any shape at all is matching the shape against the items: a string where a list is, a list where a string is, and a read past the end each stop with their own error, and otherwise what is left of the stream is what is left of the items |
| RlpShapes.OwnShapeMatches | algorithms/serialization.go:230-303 | the shape of an item takes exactly the item |
| RlpShapes.UnreadItemsComeNext | algorithms/serialization.go:283-301 | a list opened and not read to its end is not skipped: the shape of an empty list and a string reads a list that holds a list of one string |
| UrlChecker.KeepsInv | practice/parallel_url_health.go:153-204 | every step keeps, for each URL, unfed + queued + in flight + dropped + finished equal to its count in the input, and the shutdown flags consistent |
| UrlChecker.RunKeepsInv | practice/parallel_url_health.go:153-204 | so does every interleaving |
| UrlChecker.SendNeverBlocks | practice/parallel_url_health.go:160-176 | a worker with a result always finds room in the result channel |
| UrlChecker.NeverStuck | practice/parallel_url_health.go:165-196 | until the caller returns, some goroutine can step without an interrupt |
| UrlChecker.StepsDecrease | practice/parallel_url_health.go:153-204 | every step lowers a measure |
| UrlChecker.EveryRunEnds | practice/parallel_url_health.go:153-204 | no interleaving has more than five steps per URL, one per worker and three more, and one that cannot go on has returned with the jobs channel closed |
| UrlChecker.ReturnedResults | practice/parallel_url_health.go:193-203 | the results never name a URL more often than the input; they cover the input exactly if there are as many; an error is returned exactly if a URL was dropped |
| UrlChecker.CompleteExactly | practice/parallel_url_health.go:180-203 | every URL is checked exactly if no error is returned and the feeder got through the input, never taking its branch for cancellation |
| UrlChecker.UninterruptedIsComplete | practice/parallel_url_health.go:153-204 | without cancellation and with a worker there is exactly one result per input URL and no error |
| UrlChecker.NoErrorYetIncomplete | practice/parallel_url_health.go:183-191 | a run in which the feeder sees the cancellation first returns no error and no result for its URL |
| TaskScheduler.RootIsSoonest | practice/task_scheduler.go:48-53 | no task goes before the heap's root in (time, priority) |
| TaskScheduler.PoppedIsFirst | practice/task_scheduler.go:48-53 | in the fields: a task popped is due before every other, or at the same time with a priority number no larger |
| TaskScheduler.Scheduler.AddTask | practice/task_scheduler.go:96-99 | heap order is kept and exactly that entry is added |
| TaskScheduler.Scheduler.PopTask | practice/task_scheduler.go:66-72 | only one task is removed, and every task then pending is due later, or at the same time with a priority number no smaller |
| TaskScheduler.Scheduler.GetNextTask | practice/task_scheduler.go:108-118 | a task is found exactly if one is pending, and it is the one due first, a lower priority number first among those due together |
| SchedulerRuns.KeepsInv | practice/task_scheduler.go:142-183 | every step, by whatever goroutine, keeps the heap ordered and accounts for every added task |
| SchedulerRuns.NothingLost | practice/task_scheduler.go:96-183 | in every interleaving added tasks are executed, taken or pending as multisets, and every task pending at an execution is due later, or at the same time with a priority number no smaller |
| SchedulerRuns.PeekIsExact | practice/task_scheduler.go:142-167 | the loop goes idle exactly if nothing is pending, pops exactly if some pending task is due, and otherwise sleeps until the earliest |
| SchedulerRuns.NeverEarly | practice/task_scheduler.go:142-183 | with the loop as sole remover no task is executed before its time, whatever is added between peek and pop, and added tasks are executed or pending |
| SchedulerRuns.CoveredIsExact | practice/task_scheduler.go:142-183 | in any state reached without an early execution: none can follow without a further removal by others if and only if some pending task is due now (loop about to pop) or by the time of the timer (loop asleep) |
| SchedulerRuns.NeverEarlyWhileCovered | practice/task_scheduler.go:108-183 | with other removers: no task is executed early as long as each of their removals leaves such a task |
| SchedulerRuns.KeepsCovered | practice/task_scheduler.go:96-183 | only a removal by others can leave the loop without a task that is due, and a loop that has one pops one |
| SchedulerRuns.UncoveredCanBeEarly | practice/task_scheduler.go:120-183 | from a state without one, a continuation with no further removal by others executes a task early |
| SchedulerRuns.SecondRemoverMakesEarly | practice/task_scheduler.go:120-140 | a run in which a second remover takes the task seen and the loop then executes another one an hour early |
| RateBounds.ReplayIsSound | rate-limiting/token-bucket/tokenbucket.go:51-88 | after every history the level plus the grants since any entry is at most the burst and the refill since |
| RateBounds.GrantsAreBounded | rate-limiting/token-bucket/tokenbucket.go:51-88 | with two separate clock readings per request, grants over every stretch of a history stay within the burst and the refill of that time |
| RateBounds.ReplayIsExact | rate-limiting/token-bucket/tokenbucket.go:51-88 | with one reading per request some entry's bound is met exactly |
| RateBounds.AdmittedExactly | rate-limiting/token-bucket/tokenbucket.go:51-88 | with one reading, a request is admitted if and only if it fits the burst and, for every earlier request, grants since then plus it fit the burst and the refill since |
| RateBounds.RetryAfterIsExact | rate-limiting/token-bucket/tokenbucket.go:109-114 | asked again after a wait with nothing in between, a request is admitted exactly if it fits the burst and waited at least the time told |
| RateBounds.TimeToFullIsExact | rate-limiting/token-bucket/tokenbucket.go:116-118 | the bucket is full from the reset time told on, and not before |
| RateTerms.GainPerWindow | rate-limiting/token-bucket/tokenbucket.go:71-77 | a bucket gains exactly `rate` tokens in one window, unless it is full before |
| RateTerms.ServeInTerms | rate-limiting/token-bucket/tokenbucket.go:51-88 | one request in rate, window and burst, with no quotient |
| RateTerms.WaitInTerms | rate-limiting/token-bucket/tokenbucket.go:108-118 | the times told, multiplied out: wait * rate = missing tokens * window |
| RateTerms.RateLimit | rate-limiting/token-bucket/tokenbucket.go:51-88 | (granted - burst) * window <= rate * elapsed since any request of a history, in terms of the answers alone |
| RateTerms.GrantedPerWindow | rate-limiting/token-bucket/tokenbucket.go:51-88 | no more than burst + rate over any one window |
| RateTerms.AnsweredExactly | rate-limiting/token-bucket/tokenbucket.go:51-88 | with one clock reading, a request is admitted if and only if it fits the burst and (granted since + n - burst) * window <= rate * elapsed for every earlier request: no running level, first requests included |
| TokenBucket.Limiter.AllowN | rate-limiting/token-bucket/tokenbucket.go:51-88 | in rate, window and burst: a first request is admitted exactly if it fits the burst; a later one exactly if (n - tokens) * window <= rate * elapsed as well; the level grows by rate per window up to the burst and only an admitted request takes its tokens; no other key changes |
| TokenBucket.Limiter.Reset | rate-limiting/token-bucket/tokenbucket.go:91-95 | exactly one key is forgotten |
| TokenBucket.Limiter.BuildResult | rate-limiting/token-bucket/tokenbucket.go:98-121 | whole tokens left; wait * rate = missing tokens * window for a denied request and for the full bucket, both left open for a rate of zero; no bucket gives the zero report |
| TokenBucket.Limiter.AllowWithInfo | rate-limiting/token-bucket/tokenbucket.go:125-163 | decides like AllowN and reports on the level left behind |
| LimiterRuns.ServeCalls | rate-limiting/token-bucket/tokenbucket.go:51-88 | after any interleaving of calls for many keys each key stands where its own requests alone would have brought it; each answer is the closed form over earlier calls and answers, and each key stays within burst and rate |
| LimiterRuns.OfKeyInOrder | rate-limiting/token-bucket/tokenbucket.go:51-88 | the requests for one key are in order whenever all calls are |
| LimiterRuns.EveryKeyIsBounded | rate-limiting/token-bucket/tokenbucket.go:51-88 | the rate limit holds for each key of a limiter in use, whatever is asked for other keys |
| LimiterRuns.KeyWithinRate | rate-limiting/token-bucket/tokenbucket.go:51-88 | from the calls and answers alone: since any call for a key, (granted to it - burst) * window <= rate * elapsed |
| LimiterRuns.AnswerIsExact | rate-limiting/token-bucket/tokenbucket.go:51-88 | a call is admitted if and only if it fits the burst and, with what its key was granted since any earlier call for it, the rate |
| LinkedList.HasCycle | data-structures/linkedlist.go:59-73 | ends on every finite pointer graph, with true exactly if following Next comes back to a node |
| LinkedList.RoundsNeeded | data-structures/linkedlist.go:59-73 | a number of rounds after which the fast pointer has fallen off or both pointers share a node of the cycle |
| LinkedList.NeverEnds | data-structures/linkedlist.go:59-73 | a list that comes back to a node never reaches nil |
| LinkedList.ReverseList | data-structures/linkedlist.go:20-37 | the same nodes in reverse order |
| LinkedList.ReverseListRecursive | data-structures/linkedlist.go:41-55 | the same specification as the iterative reversal, so the same list over the same nodes |
| LinkedList.FindMiddle | data-structures/linkedlist.go:77-87 | the node at half the length, the second of two middle ones |
| LinkedList.IsPalindrome | data-structures/linkedlist.go:158-176 | decides whether the values read the same backwards, and says what hangs on the head afterwards, both halves sharing the middle node |
| LinkedList.HalfSuffices | data-structures/linkedlist.go:158-176 | comparing the front with the reversed second half decides the whole |
| ListEdits.MergeTwoLists | data-structures/linkedlist.go:92-123 | both lists are rewired into one chain in merge order, no node lost or copied |
| ListEdits.MergedIsSorted | data-structures/linkedlist.go:90-91 | merging sorted lists gives a sorted list of exactly their nodes |
| ListEdits.RemoveNthFromEnd | data-structures/linkedlist.go:128-153 | exactly the nth node from the end is unlinked, the head included; nil and an unchanged list if n exceeds the length |
| SearchTree.ChecksAgree | data-structures/bst.go:251-287 | on every tree, valid or not, the bounds check and the listing check agree, and accept exactly trees listing in strictly ascending order |
| SearchTree.FindsExactly | data-structures/bst.go:71-87 | the walk by comparison finds exactly what the tree lists |
| SearchTree.InsertAdds | data-structures/bst.go:30-63 | insertion keeps the order and adds exactly the value |
| SearchTree.RemovedIsSearchTree | data-structures/bst.go:159-202 | a removal leaves a search tree with exactly the other values |
| SearchTree.ReplaceBySuccessor | data-structures/bst.go:119-157 | replacing by the successor and removing it on the right takes just the old value out of the listing |
| SearchTree.ReplaceByPredecessor | data-structures/bst.go:119-157 | the same for the predecessor on the left |
| Bst.BST.DoInsert | data-structures/bst.go:30-63 | the pointer tree becomes the inserted tree, and true is returned exactly if the value was absent |
| Bst.BST.DoSearch | data-structures/bst.go:71-87 | the pointer walk finds what the tree search finds |
| Bst.BST.Successor | data-structures/bst.go:95-104 | the leftmost value of the right subtree; nil without one |
| Bst.BST.Predecessor | data-structures/bst.go:107-116 | the rightmost value of the left subtree; nil without one |
| Bst.BST.HibbardDelete | data-structures/bst.go:119-157 | whichever way the random choice falls, and with any children missing, the listing loses just the node's value |
| Bst.BST.DeleteHelper | data-structures/bst.go:159-189 | the subtree's listing loses just the value |
| Bst.BST.Delete | data-structures/bst.go:196-202 | whatever the random choices, the listing is the old one without the value, and true is returned exactly if it was there |
| Bst.BST.InOrderHelperRecursive | data-structures/bst.go:204-218 | appends the in-order listing |
| Bst.BST.InOrderHelperStack | data-structures/bst.go:220-240 | the stack traversal returns the same listing as the recursive one |
| Bst.BST.IsValid | data-structures/bst.go:266-287 | accepts exactly search trees |
| Bst.BST.IsValidByListing | data-structures/bst.go:251-261 | accepts exactly the same trees |
| LruCache.LRUCache.Get | data-structures/lru-cache.go:45-52 | answers by the recency list, -1 for a key it does not hold, and moves a held key to its front; map and list stay consistent |
| LruCache.LRUCache.Put | data-structures/lru-cache.go:56-77 | a held key is updated and moved to the front; a new one goes in front and at most the last one drops out |
| LruCache.LRUCache.AddHead | data-structures/lru-cache.go:80-92 | the pointers spell out the old list behind the new node |
| LruCache.LRUCache.MoveToHead | data-structures/lru-cache.go:95-120 | the pointers spell out the list with the node moved to the front |
| LruCache.LRUCache.PopTail | data-structures/lru-cache.go:123-138 | exactly the last node is unlinked and returned |
| LruCache.LRUCache.SizesAgree | data-structures/lru-cache.go:70-75 | the map is as large as the list is long |
| LruRuns.CacheIsFront | data-structures/lru-cache.go:45-77 | after every history the cache is the front of all keys by last use, of length at most max(capacity, 0) |
| LruRuns.PutThenGet | data-structures/lru-cache.go:45-77 | a value just put is found again exactly if the capacity is at least one |
| LruTerms.FoundExactly | data-structures/lru-cache.go:45-77 | a key is found if and only if some put or successful get used it after which fewer than `capacity` other keys were used |
| LruTerms.AnswerExactly | data-structures/lru-cache.go:45-77 | a key found is answered with what it was last put with, any other with -1 |
| LruTerms.NeverPut | data-structures/lru-cache.go:45-52 | a key never put is answered with -1 |
| LruTerms.ServeOps | data-structures/lru-cache.go:45-77 | a cache in use gives these answers to every call of any sequence, in terms of the earlier calls and answers only |
| MerklePaths.PathLeadsToRoot | data-structures/merkle.go:134-196 | the sibling path of every leaf folds to the pair-and-duplicate root |
| MerklePaths.PathLength | data-structures/merkle.go:134-170 | the path halves the leaf list down to one |
| MerklePaths.HeightIsCeilLog2 | data-structures/merkle.go:133-134 | that number of halvings is the ceiling of log2 |
| MerkleTerms.RootOfTwo | data-structures/merkle.go:78-95 | one leaf is its own root, and the root of two is sha(first + second) |
| MerkleTerms.RootOfHalves | data-structures/merkle.go:41-95 | the root of a full tree is sha(root of the left half + root of the right half) |
| MerkleTerms.OddLastCountsTwice | data-structures/merkle.go:78-95 | an odd last leaf counts twice |
| MerkleTerms.BitsSpellLeaf | data-structures/merkle.go:134-170 | bit k of a path is true exactly if bit k of the leaf's index is zero |
| MerkleTerms.AcceptsInTerms | data-structures/merkle.go:174-196 | a proof is accepted if and only if it is well-formed and hashes climb from leaf to root, each the hash of the last and the sibling in the order the bit says |
| MerklePaths.PathIsBinding | data-structures/merkle.go:174-196 | two paths with the same turns to the same root, with no two colliding strings hashed along them, have the same leaf and siblings |
| MerklePaths.VerifyProof | data-structures/merkle.go:174-196 | accepts exactly well-formed proofs whose path folds to the root hash |
| MerklePaths.AcceptedProofsAgree | data-structures/merkle.go:174-196 | two accepted proofs with the same root and path bits carry the same leaf hash, unless two strings hashed in checking them collide |
| Merkle.BuildParentLevel | data-structures/merkle.go:78-95 | the level above has parent pointers in both directions and the paired hashes, an odd last node being both children of its parent |
| Merkle.MerkleTree.constructor | data-structures/merkle.go:41-74 | the leaves hash the data in order and the root hash is the functional root; no data gives no root |
| Merkle.MerkleTree.GenerateProof | data-structures/merkle.go:134-170 | for a valid index the walk up the parent pointers collects exactly the leaf's sibling path, ceil(log2 n) steps; otherwise the error |
| Merkle.GeneratedProofIsAccepted | data-structures/merkle.go:134-196 | such a proof is accepted |
| Merkle.ProofNamesTheLeaf | data-structures/merkle.go:134-196 | a proof accepted for the tree's root along a leaf's turns can only carry that leaf's hash, unless two strings hashed along the two paths collide |
| SparseMerkle.AddressIsInjective | data-structures/merkle.go:347-364 | an address names one level and one key |
| SparseMerkle.FreshProvesAll | data-structures/merkle.go:212-235 | in a fresh tree the proof of every key folds to the root |
| SparseMerkle.SameSteps | data-structures/merkle.go:367-380 | writes along a key's own path never touch the siblings of its proof |
| SparseMerkle.FlipTurnsOne | data-structures/merkle.go:340-380 | flipping the bit at a position turns the path there and nowhere else |
| SparseMerkle.FlipTwice | data-structures/merkle.go:367-380 | the sibling of the sibling is the key itself |
| SparseMerkle.SparseMerkleTree.constructor | data-structures/merkle.go:212-235 | default hashes per level, their last as the root, and a valid proof for every key |
| SparseMerkle.SparseMerkleTree.ValidateKey | data-structures/merkle.go:324-336 | a key is accepted exactly if it is there and has the length the depth demands |
| SparseMerkle.SparseMerkleTree.Get | data-structures/merkle.go:240-251 | returns the value set last for the key, although values and hashes share one map, or the right error |
| SparseMerkle.SparseMerkleTree.Set | data-structures/merkle.go:255-292 | exactly this key's value changes; its addresses at every level hold the hashes of its path up to the new root, which its proof proves; nothing at other keys' addresses is touched; the root itself is pinned by `SparseRoot.FirstRoot` and `SparseTruth.SetTwice` |
| SparseMerkle.SparseMerkleTree.GenerateProof | data-structures/merkle.go:296-322 | the proof has one step per level and is accepted exactly if the key's path folds to the root; its bits are those of `SparseRoot.BitsSpellIndex` |
| SparseRoot.IndexIsQuotient | data-structures/merkle.go:338-344 | a key spells its leaf's number: its first `depth` bits as a big-endian number, below 2^depth |
| SparseRoot.KeyLengthIsExact | data-structures/merkle.go:329-334 | a key has as many bytes as its bits need and no more |
| SparseRoot.KeyBit | data-structures/merkle.go:338-344 | the bit a tree turns by is a bit of the key read as one number |
| SparseRoot.BitsSpellIndex | data-structures/merkle.go:308-320 | the path bits spell that number, lowest bit first, a zero bit with its sibling on the right |
| SparseRoot.FreshRoot | data-structures/merkle.go:212-235 | the root of a fresh tree is the root of 2^depth empty leaves |
| SparseRoot.FirstRoot | data-structures/merkle.go:255-292 | after one call the root is the root of the row of 2^depth leaves with sha(value) at the key's number and sha of the empty string elsewhere |
| SparseRoot.SetOnce | data-structures/merkle.go:255-322 | with a tree in use: that root, that leaf and those path bits |
| SparseTruth.TrueRoot | data-structures/merkle.go:255-292 | the root of the row with both values is what the second leaf leads to along a path that meets the first key's hash at the level where the two come together |
| SparseTruth.FirstIsForgotten | data-structures/merkle.go:255-292 | after two calls with keys that differ in more than one used bit the root is as if the first call had never been made |
| SparseTruth.RootIsTrueExactly | data-structures/merkle.go:255-292 | the root after two calls is the root of the row with both values if and only if the keys differ in exactly one used bit, or spell the same place, or the first value hashes like an empty leaf (absent collisions) |
| SparseTruth.SetTwice | data-structures/merkle.go:255-292 | with a tree in use and any hash function: siblings are both in the root, otherwise only the second value is |
| SparseProofs.EarlierProofSurvives | data-structures/merkle.go:255-322 | after setting two keys in a fresh tree of any depth, the proof of the first still folds to the root if and only if the keys differ in exactly one used bit, or take the same turns with equal leaf hashes, or both values hash like an empty leaf (absent collisions among the strings hashed) |
| SparseProofs.SiblingSurvives | data-structures/merkle.go:255-380 | for keys that differ in one used bit it always does, with no assumption about the hash |
| SparseProofs.PathsMeet | data-structures/merkle.go:263-287 | two paths through an otherwise empty tree meet at a level exactly if they took the same turns from equal leaves, or both leaves hash like empty ones |
| SparseProofs.OrderMatters | data-structures/merkle.go:255-292 | two Set calls give the same root in either order in exactly the same cases |
| SparseProofs.EarlierProof | data-structures/merkle.go:174-322 | with a tree in use: the proof verifies after the first call, and after the second exactly in those cases |
| SparseProofs.EarlierProofFails | data-structures/merkle.go:347-358 | the instance of depth 2 with keys differing in both bits: the proof accepted after the first call is rejected after the second |
| Trie.Trie.Insert | data-structures/trie.go:33-53 | exactly the word is added, and every node leads to a word |
| Trie.Trie.Search | data-structures/trie.go:57-72 | true exactly for stored words |
| Trie.Trie.StartsWith | data-structures/trie.go:75-88 | for a non-empty prefix true exactly if a stored word extends it; always for the empty one |
| Trie.Trie.NodesArePrefixes | data-structures/trie.go:75-88 | the nodes are exactly the root and the prefixes of stored words: no dead branch |
| Trie.Trie.DeleteIterative | data-structures/trie.go:90-129 | exactly the word is removed, with every node that led only to it; true exactly if it was there |
| Trie.Trie.DeleteRecursive | data-structures/trie.go:133-172 | the same below any position of the word, and tells its caller exactly when the node has become useless |
| Trie.SameWordsSameShape | data-structures/trie.go:90-172 | tries with the same words have the same nodes, flags and children, so both deletions leave the same trie |
| Trie.Trie.FindSuffixesDFS | data-structures/trie.go:181-189 | in any order of the children appends each word below the node once |
| Trie.Trie.FindAllWithPrefix | data-structures/trie.go:193-212 | every stored word with the prefix, each once, and nothing else |
| RoutingTable.SameBitsSamePrefix | practice/routing_table.go:45-47 | two addresses share their first n bits exactly if they share the prefix of length n as numbers |
| RoutingTable.PrefixIsBlock | practice/routing_table.go:45-47 | a network address and its length match exactly the addresses from it on, 2^(32 - length) of them |
| RoutingTable.Table.AddRoute | practice/routing_table.go:61-78 | the route of that prefix is replaced and no other route changes |
| RoutingTable.Table.FindRoute | practice/routing_table.go:90-110 | the gateway of the longest stored prefix with a non-empty gateway, or the empty string |
| RoutingTable.FindRouteIsLongestPrefix | practice/routing_table.go:51-110 | after any sequence of additions the answer is the last gateway given to the longest matching prefix, with prefixes compared as numbers and an empty gateway as no route |
| RobotLeveling.ComputeTargetHeights | practice/robotic_leveling.go:85-111 | the loops compute the average of all boxes, the held one included, rounded down, and one more on the left while there is remainder |
| RobotLeveling.TargetsAreLevel | practice/robotic_leveling.go:8-13 | the targets differ by at most one, higher ones on the left, and hold all boxes |
| RobotLeveling.LevelIsUnique | practice/robotic_leveling.go:8-13 | they are the only such arrangement |
| RobotLeveling.FindSource | practice/robotic_leveling.go:130-139 | the leftmost stack above its target, or -1 |
| RobotLeveling.FindTarget | practice/robotic_leveling.go:144-153 | the leftmost stack below its target, or -1 |
| RobotLeveling.IsLeveled | practice/robotic_leveling.go:116-125 | true exactly if all heights are the targets |
| RobotLeveling.Solve | practice/robotic_leveling.go:47-80 | toward the leftmost stack in need with a box in the claw, else toward the leftmost one above its target, and place or pick there; the empty command exactly in a leveled state with an empty claw |
| RobotLeveling.SourceAndDest | practice/robotic_leveling.go:56-79 | a held box always has a destination, and an unleveled state always has a source |
| RobotTurns.CommandIsLegal | practice/robotic_leveling.go:15-23 | every command given in an unleveled state is legal |
| RobotTurns.RunConserves | practice/robotic_leveling.go:47-80 | through every run the number of boxes and the targets stay as they were |
| RobotTurns.TurnProgresses | practice/robotic_leveling.go:47-80 | every turn lowers both measures |
| RobotTurns.LevelsWithinWidth | practice/robotic_leveling.go:22-23 | from any legal state the stacks are level after 2n turns per surplus box, plus n if one is held |
| RobotTurns.LevelsWithin200 | practice/robotic_leveling.go:22-27 | with 2 to 8 stacks and up to 16 boxes they are level within 195 turns, so within the 200 allowed |

## Left out

- PaymentRouter.FindPath: optimality is proved under `MinimumsMet`, which a caller can check. Network by network it is not necessary, since a channel with a higher minimum may not matter; that no weaker condition on the minimums alone will do is `PaymentRouter.MinimumHidesRoute`.
- PaymentRouter.Search: assumes through `WithinRange` that fees are not negative and that an int64 has room for them up to a limit no smaller than any channel's capacity; what a wrapped sum would do to the search is not stated.
- PaymentRouter.RelaxInto: totalCLTV is carried and orders the heap, but no optimality is claimed for it, since relaxation does not compare it.
- PathHeap.Heap.Fix: `container/heap` is modelled in place; its source is not part of this model.
- Rlp.RLPDecodeItem: a Go slice may read past its length up to its capacity and list ends from 2^63 on turn negative; both are outcomes of their own here and nothing more is said about them. Length fields of more than eight bytes do not occur.
- RlpReader.RLPReader.ReadFull: read errors other than the end of the bytes, and sources that return fewer bytes at a time, are left out.
- RlpReader.RLPReader.ReadString: a negative length makes the Go code panic in `make`; that is the outcome `MakePanics` here.
- UrlChecker.UninterruptedIsComplete: one worker at least. With an empty pool `RunChecker` returns at once with nothing; a negative pool panics.
- UrlChecker.ReturnedResults: `checkUrl` is any result for its URL; errgroup and channels are taken by their contracts, and fairness is not needed.
- SchedulerRuns.CoveredIsExact: speaks of what can follow; a run that was left uncovered may still happen to execute nothing early.
- SchedulerRuns.NothingLost: no liveness; the non-blocking signal may be dropped just before the loop selects. Callbacks, panics and mutex mechanics are left out, each locked section being one step.
- TokenBucket.Limiter.AllowWithInfo: for a rate of zero the wait and the reset time are `Undefined`, as Go leaves the conversion of an infinity open. Rounding of floats, nanosecond truncation and clocks that run backwards are left out.
- RateBounds.AdmittedExactly: no `Reset` in between, and no negative n; so for `RateTerms.AnsweredExactly` and `LimiterRuns.ServeCalls`.
- RlpShapes.DriveMatches: nothing readable behind the items; bytes that are not an encoding are left to the stream functions.
- ListEdits.RemoveNthFromEnd: n at least one; for zero or less the source dereferences nil. Lists are acyclic and the two lists of a merge share no node.
- LinkedList.HasCycle: the finite set of reachable nodes is a ghost argument.
- Bst.BST.Delete: random choices are nondeterministic. `Height` is left out: it would only add an easy member.
- Merkle.MerkleTree.GenerateProof: SHA-256 is a function parameter; where soundness needs it, no two of the strings hashed in the case at hand may collide. The "Malformed tree" branch is proved dead.
- SparseProofs.EarlierProofSurvives: two keys set in a fresh tree, as in `SparseTruth.RootIsTrueExactly`. After more calls a proof is accepted exactly if its path folds to the root, and no simpler condition is given. Sharing of caller slices is left out.
- MerklePaths.AcceptedProofsAgree: hashes in the proofs are 32 bytes long; with other lengths a concatenation can be split in two ways.
- Trie.Trie.DeleteIterative: a character is one byte; for other words data-structures/trie.go:114-115 mixes byte length and rune index.
- RoutingTable.Table.AddRoute: starts from an address below 2^32 and a prefix length up to 32; CIDR and IP text, and IPv6, are left out.
- RobotLeveling.Solve: at least one stack, the arm above one, and heights that are not negative, as the source leaves it to its caller.
- HTTP, files, signals, the command line, printing and `ComputeSummary` (practice/parallel_url_health.go).
- Single-loop and buffer code whose facts would be easy: practice/temperature.go, practice/file_block_service.go, practice/metrics_buffer.go.
- Files without behaviour: the stubs for consensus, gossip, graphs, Bloom filters, DAGs and Patricia tries, and the SSZ, protobuf and benchmark parts of algorithms/serialization.go.
