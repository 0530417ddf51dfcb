# Verified models of the Serval stack's data structures and arithmetic

Serval resolves service names to rules, holds packets back until a daemon has decided about them,
schedules timers, and carries TCP over its own access layer. This project models the parts of that
stack that keep state or do arithmetic of their own, and proves what they promise: for every input,
for every reachable state, or for every run. `dafny verify dfyconfig.toml` checks all of it.

| files | what they model |
|---|---|
| `PrefixMap`, `PrefixBytes`, `Trie`, `TrieWalk`, `TrieHistory` | the bitwise trie that finds the rule with the longest matching prefix (`src/stack/bst.c`) |
| `HeapOrder`, `Heap`, `Timer` | the array heap and the timer queue on it (`src/common/heap.c`, `src/common/timer.c`) |
| `DelayQueue`, `DelayRuns` | the queue of packets that await a verdict (`src/stack/delay_queue.c`) |
| `Checksum` | the Internet checksum of RFC 1071 (`include/serval/checksum.h`, `src/stack/userlevel/checksum.c`) |
| `Division`, `Ktime` | 64-by-32-bit division, time conversion and packed time values |
| `Reno` | Reno congestion control with limited slow start and byte counting |
| `SendOrder`, `WriteQueue` | the packet ring and the TCP write queue with its send head |
| `HashTable`, `HashHistory` | the hash table with reference-counted elements (`src/common/hashtable.c`) |
| `Hex` | the printer and parser of service identifiers |
| `Wrappers` | definitions and facts that several modules share |

The method of the project is the same throughout. Code that updates objects in place is a class or a
method with the source's loops, and is tied to a function on values. What the source promises is then
proved about those functions, independently of how the code gets there: the trie against a finite map,
the heap against a sequence of items, the write queue against "sent packets, then the others", the
division against quotient and remainder, the checksum against the one's complement sum of RFC 1071.

Some promises do not hold of the code as it is. In each case the code is modelled as it is, the exact
condition under which the promise holds is proved, and an input is given at which it fails:

- `bst_remove_prefix` can leave an inactive leaf, and `bst_iterator_next` then returns an inactive node
  once. A run of the iterator is exact exactly when the leaf reached from the root by going left where
  possible, else right, is active (`IteratorIsExact`; `RemoveThenIterate`).
- `bst_node_release` looks at a node that it has freed exactly when that node is the root and has no
  children (`Release`; `ReleaseOnlyRule`).
- `heap_remove` away from the front only sifts down. It keeps the heap order exactly when the last item
  does not precede the parent of the slot (`RemovedOrders`; `RemovedDisorders`).
- `timer_del` takes out whatever timer is in the slot that the index names. That is the timer asked for
  exactly when its index is right (`Cancel`), and the index can be wrong in two ways. A timer that is not
  scheduled has index zero, be it new, fired or cancelled before: cancelling it takes the next timer due
  (`CancelIdle`, `CancelTwice`, `FireThenCancelFired`; `FiredExample`). A scheduled timer goes stale exactly
  when any other one is taken out, by a timeout or a cancellation, and it fills that slot and does
  not sink (`Heap.Remove`). Cancelling it at once does nothing (`FireThenCancel`, `CancelThenCancel`;
  `StaleExample`, `CancelledExample`). After another timer was added it takes out another one, unless the
  new timer passed it on its way up (`FireAddThenCancel`, `CancelAddThenCancel`). With a wrong index
  `timer_mod` puts a scheduled timer into the queue a second time (`RearmedOnce`; `RearmedExample`).
- `timer_mod` uses its argument exactly for a timer that is scheduled, or when the value is the one the
  timer has already (`DeadlineIsAsked`, which covers every failing input).
- Taking a block out of a checksum gives the old checksum back exactly when the old sum was not zero
  (`BlockSubUndoes`; `SubFails`).
- With a 32-bit `time_t`, and in packed times, results are exact exactly while the seconds fit
  (`TimespecAddsUp`, `AddIsExact`, `SubIsExact`; `TimespecWidths`, `AddOverflows`, `SubOverflows`).
- The delay queue loses a packet, neither dropping nor releasing it, exactly when a verdict outside the
  enumeration names it and comes from the owner, or from anyone while there is none (`LostOnlyBy`;
  `LosesOne`).
- Unlinking a packet leaves the send head outside the ring exactly when the packet is the send head
  (`WriteQueue.Queue.Unlink`; `UnlinkSendHead`). Resetting it to NULL,
  or advancing from another packet, skips packets exactly when there are some to skip (`HonestStep`;
  `DishonestSteps`).
- The hexadecimal parser runs past an odd length limit exactly when the text goes on, a byte of room is
  left, and no bad digit came before (`OddParse`; `OddParseOverruns`).
- Above `max_ssthresh` 1 the bound of RFC 3742 is no growth. Slow start grows by one segment exactly when
  its counter is full, the clamp allows it and an ACK is limited (`LimitedToNothing`;
  `LimitedToNothingFails`).
- `hashelm_unhash` lowers the table's counts and puts a reference whether or not the element is hashed in
  that table. The table stays right exactly when it is, and the references exactly when it is hashed
  at all (`HashTable.Table.Unhash`; `UnhashNew`, `UnhashElsewhere`).
- `bst_insert_prefix` keeps all nodes exactly when the trie has entries or no nodes: a trie without entries
  gets a new root, and nodes that `bst_remove_prefix` left are dropped unfreed (`Insert`; `InsertAgain`).
  `bst_destroy` does not free them either (`Destroy`).

## Model

| member | source | states |
|---|---|---|
| PrefixMap.LongestIsUnique | src/stack/bst.c:299-314 | a longest-prefix query has at most one answer |
| PrefixMap.BestIsLongest | src/stack/bst.c:253-297 | trying the prefixes of the key from the longest down finds the longest accepted entry |
| PrefixMap.DeleteKeepsOtherAnswers | src/stack/bst.c:361-384 | deleting an entry changes the answer of exactly the queries it answered |
| PrefixMap.InsertTakesOver | src/stack/bst.c:663-694 | a new entry answers exactly the queries it covers, is accepted for, and beats; the others keep their answer |
| PrefixMap.ApplyIs | src/stack/bst.c:663-708 | what an insertion or removal leaves under each prefix: a taken one keeps its value, all others are untouched |
| PrefixBytes.BitMaskIs | src/stack/bst.c:31-34 | bits come most significant first |
| PrefixBytes.SizeIsLeast | src/stack/bst.c:31-32 | the stored size is the fewest bytes that hold the bits |
| PrefixBytes.EndMask | src/stack/bst.c:566-575 | the mask loop selects exactly the first bits of the last byte |
| PrefixBytes.StoredPrefix | src/stack/bst.c:527-578 | a node's stored bytes are the first bits of the key and zeros after them |
| PrefixBytes.StoredIsCanonical | src/stack/bst.c:31-34 | stored prefixes of one length are equal bytes exactly when they are equal bit strings |
| Trie.Trie.Walk | src/stack/bst.c:253-297 | the walk stops at the deepest node on the key's path and remembers the longest accepted entry above it |
| Trie.Trie.FindLongestPrefixMatch | src/stack/bst.c:299-314 | in every well-formed trie the node found is the longest accepted entry of the abstract map, or NULL if there is none |
| Trie.Trie.CreateNode | src/stack/bst.c:527-578 | adds exactly one node, one bit below its parent, and keeps the trie well formed |
| Trie.Trie.NewChain | src/stack/bst.c:586-626 | grows the missing chain down to the prefix; at most its end is a dead leaf, and all nodes there were stay |
| Trie.Trie.EnsureNode | src/stack/bst.c:628-684 | gives a node for the prefix without changing any entry; all nodes stay if the trie has entries, otherwise all its nodes are new |
| Trie.Trie.Insert | src/stack/bst.c:628-694 | refines insertion into the map: refused exactly for a prefix that is taken; no inactive leaf appears; nodes held by callers stay in the trie, unless it has no entries, and then the old nodes are dropped unfreed |
| Trie.Trie.Orphan | src/stack/bst.c:342-354 | an active node's destroy callback runs once and the entry count drops by one |
| Trie.Trie.Free | src/stack/bst.c:327-340 | a node not freed before is freed, and its live parent forgets it, or the tree its root |
| Trie.Trie.PruneUp | src/stack/bst.c:369-384 | frees exactly the branch above the node, in order, down to the first node that is the root, is active or has another child; no inactive leaf is left; a freed node is looked at exactly when it starts from the root |
| Trie.Trie.Release | src/stack/bst.c:361-384 | deletes exactly one entry, destroys it once, frees nothing if the node has children and otherwise exactly the branch that only led to it, and leaves no inactive leaf if there was none; it looks at a freed node exactly for a childless root |
| Trie.Trie.RemovePrefix | src/stack/bst.c:696-708 | deletes exactly that entry and runs its destroy callback once; an inactive leaf appears exactly when the node had no children |
| Trie.ActiveListsEntries | src/stack/bst.c:387-411 | of a list of all nodes, the active ones list every entry once |
| Trie.Trie.WreckStep | src/stack/bst.c:391-410 | one round of the destruction loop frees a leaf, moves a lone left child over, or goes down, and gets closer to the end |
| Trie.Trie.TearDown | src/stack/bst.c:387-411 | the loop terminates with only the top left, every other node below it orphaned and freed once |
| Trie.Trie.DestroySubtree | src/stack/bst.c:387-411 | frees every node of the subtree exactly once, runs destroy once per active one, and leaves all other nodes as they were |
| Trie.Trie.Destroy | src/stack/bst.c:493-500 | destroys every entry exactly once and leaves an empty map; frees every node exactly once, or none if there are no entries |
| TrieHistory.Replay | src/stack/bst.c:253-708 | after any history of inserts, removals and releases the trie holds the map of that history and counts its entries; without removals it has no inactive leaf |
| TrieHistory.Resolve | src/stack/bst.c:253-708 | after any history a lookup gives the longest accepted prefix in the map of that history, with its value |
| TrieHistory.SparedStays | src/stack/bst.c:628-708 | operations that do not take an entry out leave it as it was |
| TrieHistory.KeepRule | src/stack/service.c:1436-1445 | the node that an insertion returned is still the node of its entry after any operations that do not take the entry out |
| TrieHistory.KeepThenRelease | src/stack/service.c:570-594 | releasing that node later takes exactly its entry out |
| TrieHistory.InsertAgain | src/stack/bst.c:663-694 | any one prefix inserted, removed and inserted again: the first node is neither freed nor in the trie |
| TrieHistory.RemoveThenIterate | src/stack/bst.c:134-156 | any one prefix inserted and removed: no entry is left and the iterator yields a node |
| TrieHistory.ReleaseOnlyRule | src/stack/bst.c:361-384 | the only, zero-bit rule inserted and released: the freed root is looked at |
| TrieWalk.PreOrderListsOnce | src/stack/bst.c:103-156 | the pre-order that the stack stands for lists each node of a subtree once |
| TrieWalk.PreOrderSorted | src/stack/bst.c:103-156 | that order is strictly increasing, prefixes before their extensions |
| TrieWalk.Iterator.Next | src/stack/bst.c:134-156 | a call takes the next active node, or the last node if none is left |
| TrieWalk.Collect | src/stack/bst.c:121-156 | calling next until NULL yields the entries in order, then once more an inactive last node |
| TrieWalk.DescentIsLast | src/stack/bst.c:134-156 | the node visited last is the one that going left where possible, else right, ends at |
| TrieWalk.IteratorIsExact | src/stack/bst.c:121-156 | the run yields every entry once, each before its extensions, exactly when there is no node or that node is active |
| TrieWalk.TidyIsExact | src/stack/bst.c:121-156 | a nonempty trie without inactive leaves meets that condition |
| TrieWalk.FuncResultIsTreeSum | src/stack/bst.c:414-448 | when the callback never fails, the stack-driven sum is the recursive node-left-right sum |
| TrieWalk.FirstFailureEnds | src/stack/bst.c:414-448 | the first negative return ends the walk and is its result; nothing after it is released |
| TrieWalk.ReleaseVisited | src/stack/service.c:1540-1635 | a callback that releases its own node touches no node still on the stack |
| TrieWalk.SubtreeFunc | src/stack/bst.c:414-448 | returns the first negative result or the sum over the active nodes, even when the callback releases the nodes it visits; exactly those entries are gone |
| HeapOrder.SiftDownOrders | src/common/heap.c:62-88 | sifting down from a slot puts everything below it in order |
| HeapOrder.SiftUpOrders | src/common/heap.c:121-132 | sifting up puts the whole heap in order |
| HeapOrder.FrontIsLeast | src/common/heap.c:52-55 | no item precedes the front |
| HeapOrder.InsertedIs | src/common/heap.c:111-137 | insertion keeps the order and adds exactly its item |
| HeapOrder.InsertedFirst | src/common/heap.c:124-132 | the new item is in front exactly when it precedes all the others |
| HeapOrder.RemovedPermutes | src/common/heap.c:139-154 | removal takes out exactly the item in the slot |
| HeapOrder.RemovedOrders | src/common/heap.c:139-154 | removal keeps the order exactly at the front, at the end, or when the last item does not precede the slot's parent |
| HeapOrder.RemovedDisorders | src/common/heap.c:146-149 | a heap of six in which it does not |
| HeapOrder.RemoveInsertOrders | src/common/heap.c:111-154 | an insertion never mends an order that a removal has broken |
| HeapOrder.SiftUpIs | src/common/heap.c:121-132 | an insertion moves the items that its item passes down one level each, and nothing else |
| HeapOrder.RenewInsertOrders | src/common/timer.c:115-139 | with an item renewed in place and inserted once more, the order holds exactly when the new key fits between its neighbours, or the second copy stops right above the first |
| HeapOrder.RunOrders | src/common/heap.c:62-154 | every run of inserts and remove-firsts from empty keeps the order |
| HeapOrder.RunConserves | src/common/heap.c:111-154 | in every run, what was put in is what is in the heap and what was taken out |
| HeapOrder.RunTakesLeast | src/common/heap.c:139-154 | after every run a removal takes an item that no other one precedes |
| HeapOrder.DrainedPermutes | src/common/timer.c:268-284 | draining yields every item once |
| HeapOrder.DrainedSorts | src/common/timer.c:268-284 | draining a heap sorts it |
| Heap.Heap.Heapify | src/common/heap.c:62-88 | refines sifting down in the array; items that move learn their slot and the others keep their index, right or wrong |
| Heap.Heap.Grow | src/common/heap.c:90-109 | a larger array with the same items |
| Heap.Heap.Insert | src/common/heap.c:111-137 | refines insertion, growth by 100 and failed growth included; items that move learn their slot and the others keep their index, right or wrong |
| Heap.Heap.Remove | src/common/heap.c:139-154 | refines removal, a slot out of range included; items that sifting moves learn their slot and the others keep their index; right indices stay right exactly when the slot was last or its new item sank |
| Heap.Replay | src/common/heap.c:20-154 | after any run from empty the array holds the run's items, and these are exactly the active ones |
| Timer.NormalizeOnce | include/common/timer.h:99-107 | one step keeps the time, and normalises it exactly within a second on either side |
| Timer.ArithmeticIsExact | include/common/timer.h:109-125 | on normalised operands sums and differences are normalised and exact, for negative increments too |
| Timer.BeforeIsLess | include/common/timer.h:128-130 | on normalised times the comparison is that of the nanoseconds |
| Timer.BeforeIsOrder | src/common/timer.c:47-53 | the comparison is a strict weak order, as the heap needs |
| Timer.DeadlineIsAsked | src/common/timer.c:115-128 | the deadline is the one asked for exactly for a scheduled timer or an unchanged value |
| Timer.Schedule | src/common/timer.c:127-170 | adds one timer at its deadline; another thread raises the signal exactly when that deadline is before all others |
| Timer.NextTimeout | src/common/timer.c:206-231 | the time from now to the least deadline, zero if it has passed, normalised; nothing for an empty queue |
| Timer.HandleTimeout | src/common/timer.c:247-266 | takes a timer with the least deadline, and fails exactly on an empty queue |
| Timer.DestroyAll | src/common/timer.c:268-284 | every timer is destroyed once, by nondecreasing deadline, and is inactive |
| Timer.Cancel | src/common/timer.c:152-177 | the timer in the slot that the index names is taken out and no other, nothing past the end; it is the one asked for exactly when its index is right; the queue stays in order exactly when the slot was free to take |
| Timer.CancelAndSignal | src/common/timer.c:152-177 | another thread raises the signal exactly for index zero, and so always when the front of the queue has changed |
| Timer.CancelIdle | src/common/timer.c:110-177 | cancelling a timer that is not scheduled takes out the next timer due, if there is one, and no other |
| Timer.CancelTwice | src/common/timer.c:152-177 | cancelling a timer a second time takes out the timer then in front |
| Timer.FireThenCancelFired | src/servd/servd.c:115-198 | cancelling a timer that fired takes out the next timer due instead, unless none is left; all others stay |
| Timer.FiredExample | src/servd/servd.c:173-198 | two timers: the first fires and is cancelled, and the second is gone |
| Timer.FireThenCancel | src/common/timer.c:152-266 | right after a timeout a cancellation works unless the timer filled the front slot and stayed there; then it stays scheduled; all others stay |
| Timer.RemoveThenCancel | src/common/heap.c:139-154 | the same after the removal of any slot |
| Timer.CancelThenCancel | src/common/timer.c:152-177 | the same after the cancellation of any other timer |
| Timer.CancelledExample | src/common/heap.c:146-151 | four timers: cancelling the second makes the fourth stale |
| Timer.AddThenCancel | src/common/timer.c:115-177 | with a stale index and a timer added in between, the cancellation works exactly when the new timer passed the stale one; otherwise another timer is taken out; all others stay |
| Timer.FireAddThenCancel | src/common/timer.c:115-266 | from right indices, a timeout making one stale: the cancellation works exactly when the new timer is due first |
| Timer.RemoveAddThenCancel | src/common/timer.c:115-177 | the same after the removal of any slot that makes a timer stale, in any heap |
| Timer.CancelAddThenCancel | src/common/timer.c:115-177 | a cancellation making it stale: exactly when the new timer is due before the stale one, which is above the slot where the new one comes in |
| Timer.RearmedOnce | src/common/timer.c:115-139 | a scheduled timer that is armed again is in the queue once exactly when its index was right, else twice; the order is kept exactly when the slot was free to take, or with a stale index when the new deadline settles where the timer stands |
| Timer.Rearm | src/common/timer.c:115-139 | with a right index the heap itself comes to that queue: the timer once, at its new deadline, in order exactly when the slot was free to take |
| Timer.RearmedExample | src/common/timer.c:115-139 | a stale timer armed again is in the queue twice |
| Timer.StaleExample | src/common/heap.c:146-151 | a heap of three timers in which that happens |
| DelayQueue.NextKeeps | src/stack/delay_queue.c:47-278 | every step keeps the counters, the bound, one place for each packet, and the references |
| DelayQueue.RunKeeps | src/stack/delay_queue.c:47-278 | so every reachable state has them, however the steps interleave |
| DelayRuns.Conservation | src/stack/delay_queue.c:105-240 | the total is the number waiting and within the bound; created is waiting, dropped, released, lost or on the way; none is both dropped and released; references are holders |
| DelayRuns.LostOnlyBy | src/stack/delay_queue.c:175-233 | a packet is lost exactly by a verdict outside the enumeration that names a waiting packet and comes from the owner, or from anyone without one |
| DelayRuns.LosesOne | src/stack/delay_queue.c:197-233 | a run that loses its one packet |
| DelayRuns.NothingLost | src/stack/delay_queue.c:168-240 | runs with proper verdicts lose nothing |
| DelayRuns.PacketMoves | src/stack/delay_queue.c:105-166 | a new packet gets the next id; the lock lets it wait exactly when there is room and the daemon was told; a refused one ends among the dropped |
| DelayRuns.Finishes | src/stack/delay_queue.c:105-240 | once what was begun is finished, all refused packets are dropped, in order, and only packets on their way in or waiting hold their sockets |
| DelayRuns.OwnerAfter | src/stack/delay_queue.c:99-251 | who owns the queue after each event: the sender of a verdict if nobody did, nobody after a reset, else the same as before |
| DelayRuns.OwnerSince | src/stack/delay_queue.c:99-251 | a pid owns the queue after a run exactly when it sent a verdict while nobody did and no reset that concerns it came since |
| DelayRuns.FirstDecides | src/stack/delay_queue.c:177-185 | after the first verdict of a nonzero pid, and until a reset, every other verdict returns -EBUSY and changes nothing |
| DelayRuns.ResetFrees | src/stack/delay_queue.c:99-251 | after a reset the queue is empty, no verdict is turned down, and the next sender is the owner |
| DelayRuns.OwnerAlone | src/stack/delay_queue.c:177-185 | once owned, and until a reset, the queue runs as if other pids' verdicts had not been sent |
| DelayRuns.IdsDistinct | src/stack/delay_queue.c:118-122 | within 2^32 allocations an id names at most one waiting packet |
| DelayRuns.IdFinds | src/stack/delay_queue.c:59-68 | an id finds a packet exactly when the packet has it and no older one waiting does, which none does within 2^32 allocations |
| DelayRuns.LeavesExactlyBy | src/stack/delay_queue.c:77-195 | a waiting packet leaves exactly by its owner's verdict on an id that finds it, a purge of its socket, or a reset, also after the ids have wrapped |
| DelayRuns.OrderKept | src/stack/delay_queue.c:47-103 | a step appends one packet or keeps the order of the rest |
| DelayRuns.RunOrderKept | src/stack/delay_queue.c:47-240 | after every run the waiting packets are in the order in which they were queued |
| DelayRuns.EndsWhere | src/stack/delay_queue.c:77-233 | a packet that leaves is sent on exactly by a RELEASE with no socket or a live one, and dropped exactly by a DROP, a RELEASE for a dead socket, a purge or a reset |
| DelayRuns.PurgeDrops | src/stack/delay_queue.c:77-97 | a purge drops exactly the packets of its socket, in the order in which they waited |
| DelayQueue.Queue.Prepare | src/stack/delay_queue.c:111-125 | makes a packet with the next id, its socket held before the lock |
| DelayQueue.Queue.Enqueue | src/stack/delay_queue.c:127-158 | under the lock the packet joins the tail, or is refused exactly when the queue is full or the daemon cannot be told; each return value |
| DelayQueue.Queue.DropCondemned | src/stack/delay_queue.c:160-166 | the refused packet is dropped, counted, and its socket put |
| DelayQueue.Queue.FindEntry | src/stack/delay_queue.c:59-68 | the first waiting packet with the id |
| DelayQueue.Queue.Decide | src/stack/delay_queue.c:168-235 | the verdict step: a sender becomes the owner if there is none, -EBUSY exactly for another pid, 1 exactly for a packet released, else 0; it hands the packet that the id finds over to be freed, exactly when the caller may decide and there is one |
| DelayQueue.Queue.Settle | src/stack/delay_queue.c:237-237 | the socket is put after the lock |
| DelayQueue.Queue.PurgeSock | src/stack/delay_queue.c:77-97 | one pass drops exactly the socket's packets and keeps the order of the others |
| DelayQueue.Queue.ResetQueue | src/stack/delay_queue.c:99-103 | drops everything that waits, in order, and leaves no owner |
| Checksum.SwapIsTimes256 | include/serval/checksum.h:113-120 | exchanging the bytes of all words multiplies the sum by 256 modulo 0xffff |
| Checksum.WordsConcat | include/serval/checksum.h:113-120 | the sum of a concatenation, the second part exchanged after an odd length |
| Checksum.FoldIsComplement | include/serval/checksum.h:71-77 | two folds give the complement of the one's complement sum |
| Checksum.AddStands | include/serval/checksum.h:101-106 | adding partial sums gives a partial sum of the total, zero kept apart |
| Checksum.BlockAddStands | include/serval/checksum.h:113-120 | appending a block at any offset gives a partial sum of the whole data |
| Checksum.BlockSubUndoes | include/serval/checksum.h:108-129 | taking the block out leaves a congruent sum, and the old checksum exactly when the old sum was not zero |
| Checksum.SubFails | include/serval/checksum.h:101-111 | from a sum of zero, adding and taking out turns the checksum 0xffff into 0 |
| Checksum.ReceiverSeesZero | include/serval/checksum.h:71-106 | a receiver that adds the transmitted checksum folds to zero |
| Checksum.SumLongs | src/stack/userlevel/checksum.c:73-86 | the 32-bit loop with its deferred carry sums the words it covers |
| Checksum.SumBlock | src/stack/userlevel/checksum.c:48-103 | at any alignment the result stands for the sum of the data's words |
| Checksum.Partial | src/stack/userlevel/checksum.c:127-137 | the same with a sum carried in |
| Checksum.Packet.AddData | include/serval/skbuff.h:1120-1141 | appends the chunk and keeps the running sum right; a fault leaves the packet as it was |
| Checksum.SendChunks | include/serval/skbuff.h:1120-1141 | for chunks of any lengths the folded running sum is the checksum of their concatenation |
| Division.Double | include/serval/platform.h:287-290 | the doubling loop stops with a power-of-two multiple of the divisor above half the remainder |
| Division.Halve | include/serval/platform.h:292-299 | the halving loop terminates with quotient and remainder |
| Division.Div64By32 | include/serval/platform.h:272-303 | the result is the quotient and the remainder below the divisor |
| Division.DoDiv32 | include/serval/platform.h:308-318 | the short cut for a zero high word agrees with it |
| Division.DivS64Rem32 | src/stack/platform.c:216-241 | the 32-bit build's signed division truncates toward zero, as C's own does |
| Division.TruncAddsUp | src/stack/platform.c:198-202 | truncating quotient and remainder add up, the remainder is smaller than the divisor, and zero or of the dividend's sign |
| Division.TruncIs | src/stack/platform.c:198-202 | no other quotient and remainder do so |
| Division.NsToTimespec32 | src/stack/platform.c:267-283 | seconds rounded down and nanoseconds, as the 32-bit build computes them |
| Division.NsToTimespec64 | src/stack/platform.c:267-283 | the 64-bit build gives the same |
| Division.TimespecAddsUp | src/stack/platform.c:267-283 | the timespec stands for the input exactly when its seconds fit time_t |
| Division.TimespecWidths | src/stack/platform.c:267-283 | with 64 bits it always does; an input for which 32 bits fail |
| Division.NsToTimeval | src/stack/platform.c:291-300 | the same seconds, and microseconds rounded down; it stands for the input exactly when its seconds fit time_t |
| Ktime.Pack | include/serval/ktime.h:158-161 | both fields come back out of the word |
| Ktime.AddFields | include/serval/ktime.h:188-205 | the whole-word addition with its fix-up carries one second |
| Ktime.SubFields | include/serval/ktime.h:170-179 | the whole-word subtraction with its fix-up borrows one second |
| Ktime.AddIsExact | include/serval/ktime.h:188-205 | the sum is normalised, and exact in nanoseconds exactly when its seconds fit |
| Ktime.SubIsExact | include/serval/ktime.h:170-179 | the same for differences |
| Ktime.AddOverflows | include/serval/ktime.h:188-205 | two times whose sum does not fit |
| Ktime.SubOverflows | include/serval/ktime.h:170-179 | two times whose difference does not fit |
| Ktime.SubUndoesAdd | include/serval/ktime.h:170-205 | subtraction undoes addition, wrap-around included |
| Ktime.WordOrder | include/serval/ktime.h:280-297 | normalised words are ordered and equal as their times are |
| Reno.Sock.SlowStartAck | src/stack/serval_tcp_cong.c:66-99 | the slow-start loop terminates and refines settling the credit |
| Reno.Sock.AvoidAiAck | src/stack/serval_tcp_cong.c:102-111 | the additive increase refines its value form |
| Reno.Sock.CongAvoid | src/stack/serval_tcp_cong.c:120-144 | an ACK refines its value form; the window stays positive |
| Reno.SettleBounds | src/stack/serval_tcp_cong.c:93-98 | credit spent is exactly the price of the window bought below the clamp, and less than a window's worth is left |
| Reno.AckBounds | src/stack/serval_tcp_cong.c:66-144 | an ACK never shrinks the window or passes the clamp, and adds at most two segments, one unless byte counting is above level 1 |
| Reno.RunBounds | src/stack/serval_tcp_cong.c:66-144 | the same over every run, and the counter never passes the window |
| Reno.SlowStartAddsOne | src/stack/serval_tcp_cong.c:66-99 | plain slow start adds exactly one segment an ACK below the clamp |
| Reno.SlowStartBytes | src/stack/serval_tcp_cong.c:66-99 | with byte counting, nothing before a full segment is acknowledged, then one segment; at level 2 two full segments earn two, one of them kept in an empty counter, section 2.2 of RFC 3465 |
| Reno.SlowStartLimited | src/stack/serval_tcp_cong.c:80-98 | above max_ssthresh an ACK earns exactly half of it, twice that for two full segments at level 2 |
| Reno.RunEarns | src/stack/serval_tcp_cong.c:80-98 | above max_ssthresh the window bought, at its price, is covered by the credit of the ACKs |
| Reno.RunEarnsAll | src/stack/serval_tcp_cong.c:80-98 | below the clamp nothing that limited ACKs earn in slow start is lost: the window bought, at its price, and the counter are exactly it |
| Reno.LimitedSlowStart | src/stack/serval_tcp_cong.c:80-98 | a window's worth of ACKs adds at most max_ssthresh / 2 segments, section 2 of RFC 3742 |
| Reno.LimitedToNothing | src/stack/serval_tcp_cong.c:80-98 | with max_ssthresh 1 a run adds nothing, or one segment exactly when the counter was full, the clamp allows it and some ACK was limited |
| Reno.LimitedToNothingFails | src/stack/serval_tcp_cong.c:80-98 | a run that adds one, over the bound of zero |
| Reno.AvoidRun | src/stack/serval_tcp_cong.c:102-144 | where the counter and the window stand after each part of a window's worth of ACKs |
| Reno.AvoidanceAddsOne | src/stack/serval_tcp_cong.c:102-144 | a window's worth of ACKs and one more adds at most one segment, exactly one if all were limited, section 3.1 of RFC 2581 |
| Reno.ByteCountingPays | src/stack/serval_tcp_cong.c:131-139 | over every run in congestion avoidance with byte counting, each segment of growth is paid for with a full window of bytes, and below the clamp no byte is lost, section 2.1 of RFC 3465 |
| Reno.LimitedIsThreshold | src/stack/serval_tcp_cong.c:43-57 | more packets in flight never make a limiting window one that does not limit |
| Reno.LimitedIs | src/stack/serval_tcp_cong.c:43-57 | the window limits exactly when no more of it is unused than the burst, or than segmentation offload may wait for |
| Reno.IdleRun | src/stack/serval_tcp_cong.c:120-125 | a run of ACKs that all leave more than that unused changes neither window nor counter |
| Reno.BytesOrSegment | src/stack/serval_tcp_cong.c:131-139 | in congestion avoidance with byte counting, an ACK buys a segment exactly when it limits, a full window of bytes is there and the clamp allows it |
| SendOrder.NextKeeps | src/stack/serval_tcp.h:542-619 | each step keeps that packets were passed once, in queue order, and are not behind the send head |
| SendOrder.RunKeeps | src/stack/serval_tcp.h:542-619 | so does every run |
| SendOrder.HonestStep | src/stack/serval_tcp.h:553-565 | a step leaves sent packets sent and sends only passed ones, exactly when it advances from the send head and drops no send head with packets behind it |
| SendOrder.DishonestSteps | src/stack/serval_tcp.h:553-565 | two packets on which an advance and a fault skip one |
| SendOrder.RunIsHonest | src/stack/serval_tcp.h:542-619 | in every run, packets that stay queued keep their order, sent ones stay sent, and the others become sent only by being passed |
| SendOrder.WhereItGoes | src/stack/serval_tcp.h:553-619 | where every step puts or takes a packet: at the end, at the front, right after or right before its neighbour |
| SendOrder.PassedInTurn | src/stack/serval_tcp.h:553-619 | first in, first out: in every run, of two packets added at the tail the older one is ahead while both are queued and is passed first, and the younger one is never passed over it |
| WriteQueue.Ring.Insert | include/serval/skbuff.h:884-893 | the ring read from its head is the sequence with the packet inserted; next and prev stay inverse and the length right |
| WriteQueue.Ring.Unlink | include/serval/skbuff.h:1000-1010 | the ring is the sequence without the packet, whose own links are cleared |
| WriteQueue.Ring.Peek | include/serval/skbuff.h:1026-1032 | the first packet, NULL for an empty ring |
| WriteQueue.Ring.PeekTail | include/serval/skbuff.h:1047-1053 | the last packet, NULL for an empty ring |
| WriteQueue.Ring.Dequeue | include/serval/skbuff.h:1065-1071 | takes the first packet out |
| WriteQueue.AddCursor | src/stack/serval_tcp.h:577-613 | a new packet is the send head exactly when it comes right before it, or last when all were sent |
| WriteQueue.Queue.AddTail | src/stack/serval_tcp.h:577-589 | the packet joins the unsent ones at the very end, and is the send head exactly when there was none |
| WriteQueue.Queue.AddHead | src/stack/serval_tcp.h:591-594 | the packet joins the sent ones at the very front; the send head stays |
| WriteQueue.Queue.InsertAfter | src/stack/serval_tcp.h:597-602 | the new packet comes right behind its neighbour and joins its part; the send head stays |
| WriteQueue.Queue.InsertBefore | src/stack/serval_tcp.h:605-613 | the new packet comes right ahead of its neighbour and joins its part; before the send head it becomes the send head |
| WriteQueue.Queue.AdvanceSendHead | src/stack/serval_tcp.h:553-559 | everything up to the packet counts as sent, and the send head is its successor, NULL for the last one |
| WriteQueue.Queue.Unlink | src/stack/serval_tcp.h:615-619 | takes the packet out; the send head stays in the ring exactly when it is another packet |
| WriteQueue.UnlinkSendHead | src/stack/serval_tcp.h:577-619 | one packet added and unlinked: the send head is outside the ring |
| WriteQueue.Queue.DropOnFault | src/stack/serval_tcp.c:1326-1332 | the packet is out of the ring, and the send head is NULL if it was that packet |
| WriteQueue.Queue.Purge | src/stack/serval_tcp.h:501-509 | frees all packets in order; the send head is right afterwards exactly when all were sent |
| HashTable.Elm.Put | src/common/hashtable.c:170-176 | freefn runs when the last owner has gone and no table has the element, and only then |
| HashTable.SlotSuffices | src/common/hashtable.c:192-214 | one slot's chain gives the newest equal element of the table exactly when there is none or it is in that slot |
| HashTable.MaskIsMod | src/common/hashtable.c:107-111 | for a table of a power of two slots the masked hash is its remainder by the size |
| HashTable.AndBits | src/common/hashtable.c:107-111 | a bit of the masked hash is set exactly when the hash and the mask have it |
| HashTable.LengthsAddUp | src/common/hashtable.c:107-139 | the chains together hold every element once |
| HashTable.Table.constructor | src/common/hashtable.c:27-50 | an empty table, every slot and the count at zero |
| HashTable.Table.CountIsSum | src/common/hashtable.c:102-152 | the count is the sum of the slot counts, and these the chain lengths |
| HashTable.Table.Hash | src/common/hashtable.c:118-139 | refused exactly for a hashed element; otherwise it is the newest and holds one more reference |
| HashTable.Table.Answer | src/common/hashtable.c:192-214 | what a lookup finds, changing nothing: the newest equal element exactly when it is in the key's slot or there is none, always if equal elements hash alike |
| HashTable.Table.Lookup | src/common/hashtable.c:192-214 | finds the newest equal element exactly when it is in the key's slot or there is none, always if equal elements hash alike; what it finds has one more owner |
| HashTable.Table.Unhash | src/common/hashtable.c:141-152 | takes exactly a hashed element out of its chain, whichever table that is in; the table stays right exactly when it was hashed there, its references exactly when it was hashed; one that was not is freed under its only owner |
| HashTable.UnhashNew | src/common/hashtable.c:141-152 | a new element taken out of a new table: the count is -1 and the element is freed while owned |
| HashTable.UnhashElsewhere | src/common/hashtable.c:141-152 | an element taken out of another table than its own: both count wrongly |
| HashTable.Table.Fini | src/common/hashtable.c:52-75 | puts the table's reference to every element once and leaves an empty table |
| HashHistory.NextKeeps | src/common/hashtable.c:118-214 | every operation keeps each element hashed at most once |
| HashHistory.EnterFinds | src/common/hashtable.c:118-214 | an element just hashed is what a lookup of its key finds |
| HashHistory.LeaveHides | src/common/hashtable.c:141-214 | an element taken out is not found, and has one reference less |
| HashHistory.RunConserves | src/common/hashtable.c:118-214 | over every run, the references that owners hold of an element are those they had and lookups handed out, less those put |
| HashHistory.DeadStays | src/common/hashtable.c:170-214 | after the last reference to an element went, no operation of a run touches it: not even a lookup finds it |
| HashHistory.Replay | src/common/hashtable.c:27-214 | after any history the table holds the history's elements, each counts exactly the references that owners and the table hold, and freefn has run, once, exactly for those without any |
| Hex.DigitsAre | include/netinet/serval.h:153-167 | the characters accepted are the decimal digits and the letters a to f in either case |
| Hex.OrSpaceIs | include/netinet/serval.h:153-167 | a letter is read in either case: the bit for 32 is set and the others are kept |
| Hex.DecodeUndoesEncode | include/netinet/serval.h:173-228 | what the digits of some bytes mean is those bytes |
| Hex.EncodeUndoesDecode | include/netinet/serval.h:173-228 | the digits of what an even string of digits means are that string in lower case |
| Hex.EvenParse | include/netinet/serval.h:173-200 | with an even count the parse succeeds exactly when every character in reach is a digit, and stores what they mean |
| Hex.OddParse | include/netinet/serval.h:173-200 | with an odd count it reads past the count exactly under the condition given |
| Hex.OddParseOverruns | include/netinet/serval.h:173-200 | a text of two digits read with a count of one |
| Hex.RoundsParse | include/netinet/serval.h:181-197 | the rounds of the loop, a counter that wraps included, come to that parse |
| Hex.Hexton | include/netinet/serval.h:173-200 | the loop refines that parse, stores its bytes and no others |
| Hex.Ntohex | include/netinet/serval.h:206-228 | the digits that fit, then a zero, and nothing beyond |
| Hex.RoundTrip | include/netinet/serval.h:173-228 | what is printed parses to the bytes it was printed from |
| Hex.PrintThenParse | include/netinet/serval.h:173-228 | printing with enough room and parsing gives the bytes back |

## Left out

- The service access layer's packet protocol, the migration handshake, the service table and the control messages: they are not part of this model.
- Kernel and socket plumbing, daemons, command-line tools, configuration parsing, logging and printing: system calls and thin wrappers.
- `src/stack/serval_tcp_offload.c`, whose own header says that it does not work, and the other parts of TCP input and output.
- Locks and atomics: a locked section is one step. The delay queue's unlocked steps are modelled as steps of their own.
- Trie: allocation and the `ops->init` callback succeed, and private pointers are not NULL, as the code's callers ensure. A freed node is marked and keeps its fields, so the model goes on past the one read of a freed node.
- Trie: keys are bit strings; `PrefixBytes` says how bytes hold them.
- Heap: an item's key does not change while it is in the heap. In `timer_mod` of a scheduled timer, the timer with its new deadline is another item.
- Timer.RearmedOnce: stated on sequences, since a queue that holds a timer twice is not a valid heap; `Rearm` ties the other case to the heap.
- Timer: the fields of a timespec are unbounded integers, and the clock is a parameter.
- DelayQueue: what happens to released packets afterwards; they end in a log.
- Checksum.SumBlock: models the little-endian build; the data are a sequence and the address only gives the alignment.
- Reno.RunBounds: windows and counters are unbounded naturals, so 32-bit wrap-around of the counters is not modelled.
- WriteQueue: `highest_sack` and the retransmission hints that the queue functions also touch.
- HashTable.Table.Unhash: the table that a hashed element is in is a parameter, in the place of the list links that lead there. Counts are unbounded integers.
- HashHistory.Replay: callers hash and put only elements they own, and take out only hashed ones.
- HashTable: a slot's chain is a sequence, not the pointer list of `hlist_head`; `hashtable_for_each` is left out.
- Hex.PrintThenParse: the two buffers do not overlap.
