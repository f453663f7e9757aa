# Verification of the storage engine, the matching engine and their protocols

This project models, in Dafny, the parts of the repository whose correctness rests on state that
several functions share, and proves what those parts are for. The models keep the form of the code:
what works by changing nodes, ladders, buffers and files in place is a class or a method with
loops, and is proved against functions whose own properties are then proved as lemmas; what several
threads do is a transition system with one atomic access per step.

- **B+ tree index** (`BPlusStore`, `BPlusInsert`, `BPlusDelete`, `BPlusRebalance`, `BPlusSteps`,
  `BPlusTree`, `IndexRuns`, `IndexStatistics`): nodes with keys, children, parent and next pointers,
  for every `DEGREE` of two or more. Every insert and remove keeps the tree well shaped and acts on
  it as on a map; the leaf chain lists the keys in order.
- **Order book** (`PriceTime`, `BookState`, `BookSteps`, `BookLedger`, `OrderBook`, `BookRuns`): the
  two ladders, the lists threaded by order ids, the order map and its slab of slots, compared with a
  pure matcher by price and time. In every run each command succeeds exactly when it should and
  trades by price and time; a ledger that only reads commands and results predicts what rests under
  every id.
- **Queues** (`RingIndex`, `WorkStealingDeque`, `DequeCalls`, `MpmcQueue`, `MpmcCalls`, `MpmcWords`,
  `SpscQueue`): invariants over every interleaving of every number of threads; what every whole call
  delivers, when it may come back with nothing, and that no call waits for another thread; the
  bounded queue with 64-bit words that wrap has the runs of the one with unbounded positions, as long
  as no thread sleeps through about 2^63 tickets.
- **Row storage** (`RowStore`, `RowRuns`): the data, index and delete files stand for a list of
  rows, over every run of INSERT, DELETE, SELECT and vacuum, and every statement answers from it.
- **Codecs** (`Json`, `JsonParser`, `JsonText`, `JsonUnclosed`, `JsonSurvival`, `Masking`, `Utf8`,
  `Md5Stream`). `JsonText` writes down the documents of RFC 8259 with all the freedom that their
  texts have, and the parser reads each of them as what it stands for.
- **Snapshot protocol** (`BinanceSync`, `SyncOutcome`): one synchronisation cycle of two threads,
  what becomes of every message in it, and that it ends.

`Common` and `Int64` hold what several of these use. `dafny verify dfyconfig.toml` checks everything.

## Where the code does less than it seems to

Each of these is proved, with the exact condition and an input that shows it.

- The deque's constructor takes any capacity, and only a power of two keeps items: with any other
  capacity some push overwrites an item that nobody has taken
  (`WorkStealingDeque.KeepsItemsIffPowerOfTwo`, with the losing run).
- The bounded queue's assertion admits a capacity of one, at which a second item overwrites the
  first (`MpmcQueue.BoundedIffTwoSlots`, `MpmcQueue.CapacityOneOverwrites`).
- The sum over an integer index is a 64-bit number. Keys come in increasing order, so no addition
  overflows exactly when the negative keys alone and the whole sum both fit
  (`IndexStatistics.OverflowsUnlessSumFits`, `IndexStatistics.TwoKeysOverflow`).
- Fill-or-kill adds up level totals in 64 bits. An order that passes always finds its quantity; it
  passes exactly when one of the running sums over the acceptable levels, best first and cut off to
  64 bits, reaches the quantity. Two orders of 2^63 - 1 at one price hide every unit, and a third
  shows them again (`PriceTime.WronglyRefusedExactly`, `PriceTime.TwoLargeOrdersHide`,
  `PriceTime.ThirdLargeOrderShows`).
- A row id is handed out a second time exactly when a vacuum that drops a deleted last row comes
  before an insert (`RowRuns.IdsUniqueIffNoneForgotten`, `RowRuns.IdsCanComeBack`).
- The JSON parser accepts a list that is not closed exactly if the text ends right behind the opening
  bracket and white space, or behind a comma after an element (`JsonUnclosed.UnclosedExactly`,
  `JsonUnclosed.EndsForExample`, `Json.CommaAtTheEnd`).
- A backslash before any character other than the eight escape letters stands for that character,
  so `\u0041` is read as the five characters u0041 (`JsonText.OtherEscapes`). An integer that does
  not fit 32 bits is refused, in either direction (`JsonText.OutOfRange`, `JsonText.NumeralIsRead`).
- The JSON printer does not escape. A value without doubles survives printing and reading exactly
  when no string and no key has a quote or a backslash (`JsonSurvival.SurvivesIffPlain`,
  `JsonSurvival.QuoteAndBackslashAreLost`).
- A synchronisation cycle reports a gap although no update is missing exactly when the message before
  the one judged was replayed from the buffer and the stream began no later than right behind the
  snapshot (`BinanceSync.SpuriousGapExactly`). In `BinanceSync.ReplayThenGap` this happens; in
  `BinanceSync.PushedTooLate` a message was replayed too, but an update is really missing, because it
  reached the buffer after the drain. Either way a cycle that replays anything never goes live
  (`BinanceSync.ReplayNeverGoesLive`).

Three more are facts about the code without a condition.

- Modifying an order with a price or quantity that is not positive cancels it all the same
  (`OrderBook.OrderBook.ModifyOrder`).
- The clean-up of empty levels in the matching loop never finds one
  (`OrderBook.OrderBook.NoEmptyLevel`).
- The comments on masking promise that output may be written past the length; the code writes
  exactly the length, and the model follows the code (`Masking.WordMaskExact`).

## Model

| member | source | states |
|---|---|---|
| BPlusTree.Tree.constructor | storageTree.hpp:408-410 | a new tree is well shaped and stores the empty map |
| BPlusTree.Tree.FindLeaf | storageTree.hpp:50-65 | the descent ends in the one leaf whose interval contains the key |
| BPlusTree.Tree.Search | storageTree.hpp:431-441 | the value last stored under the key, or nothing if the key is absent |
| BPlusTree.Tree.Insert | storageTree.hpp:417-429 | the tree stores the old map with the key set to the value, is well shaped with every node but the root between its bounds, no node changes its level, and the height grows only by a new root |
| BPlusTree.Tree.InsertIntoLeaf | storageTree.hpp:67-81 | the key is overwritten or added; at most this leaf is overfull, by one key |
| BPlusTree.Tree.SplitLeaf | storageTree.hpp:83-105 | an overfull leaf is split and the tree is whole again with the same map, the recursion upwards terminating |
| BPlusSteps.SplitLeafGood | storageTree.hpp:83-104 | cutting a leaf at DEGREE keeps shape, occupancy, chain and map, up to the separator that the parent still lacks |
| BPlusTree.Tree.InsertIntoParent | storageTree.hpp:107-136 | a node with a new right neighbour gets its separator and child; the map stays, the tree is whole, and a new root appears only above the old one |
| BPlusSteps.ParentInsertGood | storageTree.hpp:107-132 | the inserted separator and child repair the parent, which may have one key too many |
| BPlusTree.Tree.SplitInternal | storageTree.hpp:138-160 | an inner node with 2 DEGREE keys is split, its right children learn their parent, and the tree is whole again with the same map |
| BPlusSteps.InnerSplitGood | storageTree.hpp:138-158 | cutting an inner node keeps shape, intervals, parent pointers and map |
| BPlusTree.Tree.Remove | storageTree.hpp:444-447 | true exactly if the key was present; the map loses just that key; the tree is well shaped and only the root level may vanish |
| BPlusTree.Tree.DeleteFromLeaf | storageTree.hpp:162-183 | the key leaves its leaf and an underfull leaf is repaired, with the map changed by that key only |
| BPlusSteps.RemoveGood | storageTree.hpp:162-176 | erasing a key keeps shape, chain and the rest of the map; only that leaf may be underfull |
| BPlusTree.Tree.HandleUnderflow | storageTree.hpp:185-224 | a node one key short is repaired by borrowing or merging, upwards as far as needed; the map stays |
| BPlusTree.Tree.BorrowFromLeft | storageTree.hpp:226-259 | one pair or child moves over from the left sibling and the separator follows; the whole tree is well shaped |
| BPlusTree.Tree.BorrowFromRight | storageTree.hpp:261-294 | the same from the right sibling |
| BPlusSteps.LeafBorrowGood | storageTree.hpp:226-294 | moving the cut between two neighbouring leaves keeps shape, occupancy and map |
| BPlusSteps.InnerBorrowGood | storageTree.hpp:226-294 | moving the cut between two neighbouring inner nodes keeps intervals and parent pointers |
| BPlusTree.Tree.MergeWithLeft | storageTree.hpp:296-331 | the node empties into its left sibling, leaves the chain and the parent, and the parent is repaired |
| BPlusTree.Tree.MergeWithRight | storageTree.hpp:333-369 | the right sibling empties into the node, and the parent is repaired |
| BPlusSteps.LeafMergeGood | storageTree.hpp:296-342 | joining two leaves keeps the map, the chain and one depth |
| BPlusSteps.InnerMergeGood | storageTree.hpp:305-323 | joining two inner nodes around their separator keeps intervals and parent pointers |
| BPlusSteps.CollapseGood | storageTree.hpp:318-331 | a root without keys is replaced by its only child and nothing else changes |
| BPlusTree.Tree.Repair | storageTree.hpp:318-331 | after a merge the parent is left alone, collapses as an empty root, or is repaired in turn |
| BPlusTree.Tree.ForEachKey | storageTree.hpp:458-478 | following the chain from the leftmost leaf visits exactly the keys of the map, in strictly increasing order |
| IndexRuns.Run | storageTree.hpp:417-478 | for every sequence of insert, remove and search on a new tree the answers, and the keys listed at the end, are those of a plain map |
| IndexStatistics.LeavesAtOneDepth | storageTree.hpp:50-65 | a path from the root ends in a leaf exactly when it is as long as the height |
| IndexStatistics.SeparatorsBoundSubtrees | storageTree.hpp:50-65 | every key below child i lies from separator i - 1 on and below separator i |
| IndexStatistics.ExecStatStat | utility.hpp:487-553 | count, minimum and maximum are those of the keys that pass the filter, or there is no data; the sum is theirs cut to 64 bits, and exact if no addition overflows |
| IndexStatistics.Fold | utility.hpp:521-534 | the callback, run over increasing keys, computes these numbers |
| IndexStatistics.OverflowsUnlessSumFits | utility.hpp:521-530 | no partial sum leaves 64 bits if and only if the sum of the negative keys is not below and the total not above the range |
| IndexStatistics.TwoKeysOverflow | utility.hpp:518-530 | the keys 1 and 2^63 - 1 overflow |
| PriceTime.FlatOldestFirst | hft_clean/src/order_book.cpp:292-306 | of a side whose levels hold increasing ids: in the whole queue orders at one price stand by id |
| PriceTime.RestPosition | hft_clean/src/order_book.cpp:292-306 | an order that comes to rest stands behind all that are as good and before all that are worse |
| PriceTime.FillOrKillIsSafe | hft_clean/src/order_book.cpp:8-31 | whatever overflows, an order that passes the check finds its quantity |
| PriceTime.FillOrKillExactly | hft_clean/src/order_book.cpp:8-31 | from any sum so far that is below the quantity: the check passes if and only if one of the running sums over the acceptable levels, cut off to 64 bits, reaches the quantity |
| PriceTime.WronglyRefusedExactly | hft_clean/src/order_book.cpp:8-31 | for every order the check passes if and only if one of these sums reaches the quantity, and then enough is available; so an order with enough available is refused exactly when none of them does |
| PriceTime.FillOrKillIff | hft_clean/src/order_book.cpp:8-31 | as a corollary below 2^64: the check passes exactly when enough is available and the sum that shows it fits 64 bits |
| PriceTime.FillOrKillIffAvailable | hft_clean/src/order_book.cpp:8-31 | when what is acceptable fits 64 bits, the check passes exactly when enough is available |
| PriceTime.TwoLargeOrdersHide | hft_clean/src/order_book.cpp:8-31 | two orders of 2^63 - 1 at one price hide every unit from the check |
| PriceTime.ThirdLargeOrderShows | hft_clean/src/order_book.cpp:8-31 | with a third such order the total wraps to 2^63 - 3, and an order of one unit passes |
| OrderBook.MemoryPool.constructor | hft_clean/include/memory_pool.hpp:23-27 | all slots are free |
| OrderBook.MemoryPool.Allocate | hft_clean/include/memory_pool.hpp:29-37 | a free slot, reset, or nothing when none is left; the free slots stay distinct |
| OrderBook.MemoryPool.Deallocate | hft_clean/include/memory_pool.hpp:39-44 | the slot is free again and on top of the list |
| OrderBook.MemoryPool.Reset | hft_clean/include/memory_pool.hpp:59-67 | all slots are free |
| OrderBook.OrderBook.constructor | hft_clean/include/order_book.hpp:55-73 | a new book is consistent and empty |
| OrderBook.OrderBook.LevelRemoveOrderLinks | hft_clean/src/order_book.cpp:308-326 | the neighbours of the order are linked to each other, head and tail follow, and the count drops |
| OrderBook.OrderBook.LevelAddOrder | hft_clean/src/order_book.cpp:292-306 | the order is linked behind the tail of its level, whose total and count grow |
| OrderBook.OrderBook.FillOrder | hft_clean/src/order_book.cpp:180-232 | both orders lose the quantity, the level total follows, and an exhausted maker leaves its list, its ladder if it was the last, and its slot |
| OrderBook.OrderBook.MatchHead | hft_clean/src/order_book.cpp:151-163 | one trade with the oldest order of the level, at its price |
| OrderBook.OrderBook.SweepLevel | hft_clean/src/order_book.cpp:149-164 | the inner loop ends with the level gone or the taker filled, and the run so far is that of the reference matcher |
| OrderBook.OrderBook.NoEmptyLevel | hft_clean/src/order_book.cpp:165-168 | the level that the inner loop leaves is not empty, so the clean-up never erases one |
| OrderBook.OrderBook.MatchOrder | hft_clean/src/order_book.cpp:134-178 | it terminates; the trades, the opposite queue, the taker and the volume are those of the reference matcher, the own side is untouched, and the book stays consistent |
| OrderBook.OrderBook.CanFillFok | hft_clean/src/order_book.cpp:8-31 | the answer is that of the 64-bit sum over the levels, best first |
| OrderBook.OrderBook.AddOrder | hft_clean/src/order_book.cpp:33-132 | accepted exactly if quantity, price, pool and fill-or-kill check allow; then it trades as the reference matcher and as the caller asked for (see the row below), and only the rest of a limit order comes to rest; otherwise ladders, order map, orders and free list are as before; the counters follow |
| OrderBook.LimitIsPrice | hft_clean/src/order_book.cpp:33-132 | in terms of the price asked for: every trade of an order other than a market order is at that price or better, the better prices come first and none better is left; with quantity left over no price agreed to is left, for a market order no price at all; what is left of a limit order stands last at exactly the price asked for |
| OrderBook.OrderBook.CancelOrder | hft_clean/src/order_book.cpp:234-270 | found exactly if registered; the order leaves its queue, its level follows, its slot is free, and nothing else changes |
| OrderBook.OrderBook.ModifyOrder | hft_clean/src/order_book.cpp:272-290 | the order leaves the book and a limit order with a new id enters as by add_order, trading and resting at the price asked for; with a bad price or quantity it only leaves |
| OrderBook.OrderBook.Clear | hft_clean/src/order_book.cpp:350-359 | the book is empty, all slots are free and the counters start again |
| OrderBook.OrderBook.BestPrice | hft_clean/include/order_book.hpp:133-141 | the price of the first order in the queue of the side, or 0 |
| OrderBook.OrderBook.DepthLevels | hft_clean/src/order_book.cpp:328-348 | the first levels, best first, with the sum and number of their orders; a negative number of levels fails |
| OrderBook.OrderBook.RegisteredIsResting | hft_clean/src/order_book.cpp:76-132 | the order map holds exactly the orders that rest, and order_count is their number |
| OrderBook.OrderBook.QueueOldestFirst | hft_clean/src/order_book.cpp:292-306 | in every consistent book, orders at one price stand by increasing id |
| OrderBook.OrderBook.HeldIs | hft_clean/src/order_book.cpp:76-132 | under an id rests exactly what remains of the registered order, once |
| OrderBook.OrderBook.FreeSlots | hft_clean/include/memory_pool.hpp:29-67 | the free slots are the capacity less the number of orders that rest |
| OrderBook.OrderBook.NeverCrossed | hft_clean/src/order_book.cpp:81-132 | every bid is below every ask |
| BookSteps.TradesFollowPriority | hft_clean/src/order_book.cpp:134-232 | the trades of an order run along the opposite queue, best price and oldest first, each at the maker's price and within the limit; all but the last exhaust their maker, the queue loses just them, and an order with quantity left over meets no acceptable price |
| BookSteps.QuantityConserved | hft_clean/src/order_book.cpp:33-132 | an order's quantity is its fills plus what rests or is discarded; the other side and the volume change by the fills |
| BookSteps.FillOrKillFillsAll | hft_clean/src/order_book.cpp:67-113 | a fill-or-kill order that passes the check is filled to the last unit and leaves nothing |
| BookSteps.CancelTakesOne | hft_clean/src/order_book.cpp:234-270 | cancelling takes exactly one order out of the queue, and its quantity |
| BookLedger.MatchTakesFills | hft_clean/src/order_book.cpp:134-232 | matching takes from every order exactly its fills |
| BookLedger.EnteredHolds | hft_clean/src/order_book.cpp:33-132 | what rests under every id changes by the trades that name it, and by what the new order enters |
| BookRuns.Step | hft_clean/src/order_book.cpp:33-359 | one command succeeds exactly when it should, makes of the book what it should, and changes what rests under every id, the totals and the counters as its result says |
| BookRuns.Run | hft_clean/src/order_book.cpp:33-359 | over the books that a run goes through: each is uncrossed, and each command succeeds exactly when it should and makes the next book out of the one it finds; at the end, under every id rests what the commands and results alone say, the quantity entered is traded, discarded, withdrawn or resting, and every order counted as added is counted as filled or cancelled, rests or was discarded |
| BookRuns.RunFollowsPriority | hft_clean/src/order_book.cpp:33-232 | every order that a run accepts trades by price and time with the book it finds, at the price asked for or better, and what rests of it rests at that price |
| BookRuns.RunModifiesAsAsked | hft_clean/src/order_book.cpp:272-290 | so does every order that a run modifies, at the new price, in the book without the old order |
| BookRuns.LedgerNotNegative | hft_clean/src/order_book.cpp:134-232 | at no point of a run has more been filled or withdrawn under an id than was entered |
| BookRuns.RunFits | hft_clean/src/order_book.cpp:8-31 | if what rested and what entered fit 64 bits together, no level total and no fill-or-kill sum overflows |
| WorkStealingDeque.PutGet | utils/work_stealing_deque.hpp:30-32 | with a power of two, writing at one index leaves every index less than a capacity away unchanged |
| WorkStealingDeque.StepRefines | utils/work_stealing_deque.hpp:52-111 | every step of every thread keeps the invariant and is one append, take-last, take-first or nothing on the sequence of items |
| WorkStealingDeque.GrowKeeps | utils/work_stealing_deque.hpp:34-40 | copying into the new array and publishing it leaves the items as they are |
| WorkStealingDeque.TopCellKept | utils/work_stealing_deque.hpp:34-65 | the owner never changes the cell at top in any published array |
| WorkStealingDeque.NoneTwiceNoneLost | utils/work_stealing_deque.hpp:52-111 | in every interleaving, growth included: nothing is returned more often than pushed, and what is not returned is in the current array or in the owner's pop |
| DequeCalls.PushDelivers | utils/work_stealing_deque.hpp:52-65 | in every run, when a push comes back its item is behind all others in the deque, and was not in it before |
| DequeCalls.PopDelivers | utils/work_stealing_deque.hpp:68-92 | in every run, a pop comes back with an item that it took from the end, or with nothing, and then the deque was empty at some moment of the call |
| DequeCalls.StealDelivers | utils/work_stealing_deque.hpp:96-112 | in every run, a steal comes back with the item that it took from the front, or with nothing, and then the top has moved since it was read, or there was no item but the one the owner is popping |
| DequeCalls.StealEnds | utils/work_stealing_deque.hpp:96-112 | the step at which a steal ends: at the swap, which takes the item or finds the top moved, or at the test of the bottom, which the top has reached |
| DequeCalls.StealGivesUp | utils/work_stealing_deque.hpp:96-101 | a thief that gives up before the swap has top at bottom or beyond; if its top is current and the owner is idle, there is no item |
| DequeCalls.OwnerNeverWaits | utils/work_stealing_deque.hpp:52-92 | whatever the thieves do, the owner can take its next step |
| DequeCalls.OwnerEnds | utils/work_stealing_deque.hpp:52-92 | each of these brings it nearer to the end of its call, and no thief sets it back |
| DequeCalls.ThiefNeverWaits | utils/work_stealing_deque.hpp:96-112 | a thief can always take its next step |
| DequeCalls.ThiefEnds | utils/work_stealing_deque.hpp:96-112 | and each of these brings it nearer to the end of its call |
| WorkStealingDeque.KeepsItemsIffPowerOfTwo | utils/work_stealing_deque.hpp:28-49 | no run loses an item if and only if the capacity given is a power of two |
| RingIndex.MaskIsRemainder | utils/work_stealing_deque.hpp:30-32 | the mask of a power of two is the remainder |
| RingIndex.MaskClash | utils/work_stealing_deque.hpp:30-32 | for any other capacity two positions of the first round share a cell |
| MpmcQueue.InvHolds | utils/mpmc.hpp:26-78 | the invariant of tickets, slots and threads holds in every state of every run |
| MpmcQueue.TicketsMatch | utils/mpmc.hpp:32-78 | each ticket has at most one enqueuer and one dequeuer, the dequeuer gets the item enqueued under it, no ticket is skipped, and at most a capacity of tickets is open |
| MpmcQueue.NextAppends | utils/mpmc.hpp:32-78 | a ticket keeps its item and its receiver keeps it |
| MpmcQueue.NoOverwrite | utils/mpmc.hpp:32-78 | a full slot keeps its data and changes its sequence only after its dequeuer has read it |
| MpmcQueue.OneInSlot | utils/mpmc.hpp:43-69 | no two threads are between compare-and-swap and last store in the same slot |
| MpmcQueue.RefusedOnlyWhenFull | utils/mpmc.hpp:45-47 | a slot whose sequence is below the position of the next ticket is still in use one round earlier |
| MpmcQueue.RefusedOnlyWhenEmpty | utils/mpmc.hpp:70-72 | a slot whose sequence is not past the next ticket to be taken holds no published item for it |
| MpmcCalls.SettledHolds | utils/mpmc.hpp:32-78 | in every state of every run, a ticket whose enqueuer is done is published, and a slot whose dequeuer is done is free for the next round |
| MpmcCalls.EnqueueGivesUp | utils/mpmc.hpp:35-53 | the step: an enqueue gives up if and only if its position is current and the queue is full; with a current position and a queue that is not full it goes on to the compare-and-swap |
| MpmcCalls.DequeueGivesUp | utils/mpmc.hpp:59-77 | the same for dequeue and an empty queue |
| MpmcCalls.QuietQueue | utils/mpmc.hpp:32-78 | when no thread is between its swap and its last store, full and empty mean just that the tickets open are as many as the slots, or none |
| MpmcCalls.EnqueueDelivers | utils/mpmc.hpp:32-55 | in every run, when an enqueue comes back its item stands in the queue under a ticket of its own and is published, or it has given up on a full queue |
| MpmcCalls.DequeueDelivers | utils/mpmc.hpp:57-78 | in every run, a dequeue comes back with the item of a ticket that nobody had taken when it began, or has given up on an empty queue |
| MpmcCalls.NeverWaits | utils/mpmc.hpp:32-78 | whatever the others do, a thread in a call can take its next step |
| MpmcCalls.EnqueueAlone | utils/mpmc.hpp:32-55 | left alone, an enqueue into a queue that is not full puts the item in |
| MpmcCalls.DequeueAlone | utils/mpmc.hpp:57-78 | left alone, a dequeue from a queue that is not empty returns the oldest item |
| MpmcQueue.CapacityOneOverwrites | utils/mpmc.hpp:15-16 | with one slot a run overwrites an item that was not read |
| MpmcQueue.BoundedIffTwoSlots | utils/mpmc.hpp:15-78 | the queue never has more open tickets than slots if and only if it has two slots or more |
| MpmcWords.MachineRefines | utils/mpmc.hpp:15-78 | every run with 64-bit positions and sequences that wrap, the mask and the signed difference is, seen through the words, a run with unbounded positions, to its end or to the first state in which a thread holds a position about 2^63 tickets old |
| MpmcWords.StepSimulated | utils/mpmc.hpp:32-78 | one step of this |
| MpmcWords.MachineOneInSlot | utils/mpmc.hpp:43-69 | as long as nobody is that late, no two threads of the wrapped queue use the data of one slot |
| MpmcWords.StepImage | utils/mpmc.hpp:32-78 | the other way round: one step of the unbounded queue, seen through the words, is a step of the wrapped one |
| MpmcWords.RunImage | utils/mpmc.hpp:15-78 | so every run of the unbounded queue in which nobody is that late is a run of the wrapped one |
| MpmcWords.MachineEnqueueDelivers | utils/mpmc.hpp:32-55 | in the wrapped queue too, when an enqueue comes back its item is in the queue, or the queue was full |
| MpmcWords.MachineDequeueDelivers | utils/mpmc.hpp:57-78 | in the wrapped queue too, a dequeue returns an item that was enqueued, or the queue was empty |
| SpscQueue.FirstInFirstOut | utils/spsc.hpp:18-46 | in every run, however often head and tail wrap: what was popped is a prefix of what was pushed, and at most Capacity - 1 items are held |
| SpscQueue.RefusedExactlyAtTheEnds | utils/spsc.hpp:18-46 | push is refused exactly at Capacity - 1 items and pop exactly when empty |
| SpscQueue.PushDelivers | utils/spsc.hpp:18-31 | in every run, a push appends its item, or held Capacity - 1 items when it was refused |
| SpscQueue.PopDelivers | utils/spsc.hpp:33-46 | in every run, a pop returns the oldest item that was not popped, or all that was pushed had been popped |
| SpscQueue.CallsEnd | utils/spsc.hpp:18-46 | neither side ever waits for the other, and each of its own steps brings it nearer to the end of its call |
| RingIndex.MaskedSlot | utils/spsc.hpp:26-41 | the mask finds the slot of a position from its wrapped word, because a power of two divides 2^64 |
| RingIndex.WrapKeepsDistance | utils/spsc.hpp:22-38 | the difference of wrapped positions is the difference of the positions |
| RowStore.RowStore.InsertRow | utility.hpp:314-405 | the new row gets the next id, is stored behind the others and is live; the index grows by the id and the offsets of the texts, the data by the texts, and the delete file has a zero at the place of the id |
| RowStore.RowStore.Select | selectAstEvaluator.hpp:225-340 | the live rows that satisfy WHERE, in order, or a failure if WHERE fails on one of them |
| RowStore.RowStore.ReadRow | selectAstEvaluator.hpp:281-340 | the entry at an offset gives back the texts that were stored |
| RowStore.RowStore.HandleDelete | generator.hpp:352-422 | exactly the live rows that satisfy WHERE get a tombstone, up to a failure |
| RowStore.RowStore.VacuumTable | utility.hpp:190-264 | the three files hold the live rows alone, in order and with their ids; the data are their texts and nothing else |
| RowStore.RowStore.CopyEntry | utility.hpp:215-248 | one entry is copied with its texts and new offsets |
| RowStore.RowAdded | utility.hpp:314-405 | a row appended to index and data with a zero byte at its row or behind extends the list, although the byte is addressed by id |
| RowStore.NextIdOk | utility.hpp:330-350 | ids keep increasing and row k has id k + 1 or more, so a new row is never born dead |
| RowStore.AliveIds | utility.hpp:190-264 | compaction keeps both facts about ids |
| RowStore.AliveLive | utility.hpp:190-264 | compaction keeps the list of live rows |
| RowRuns.DeleteTakesTheSelected | generator.hpp:385-422 | DELETE fails exactly when SELECT would; otherwise it removes exactly the rows that SELECT returns |
| RowRuns.Run | utility.hpp:190-405 | in every run of INSERT, DELETE, SELECT and vacuum each statement answers from the list of rows replayed so far, INSERT with the id it gives and SELECT with the rows it finds, and the files left stand for the replayed list |
| RowRuns.IdsCanComeBack | utility.hpp:190-405 | insert, delete, vacuum, insert hands out id 1 twice |
| RowRuns.VacuumKeepsNextId | utility.hpp:190-264 | vacuum keeps the next id if and only if there is no row or the last one is live |
| RowRuns.IdsUniqueIffNoneForgotten | utility.hpp:190-405 | no id is handed out twice if and only if no vacuum that drops a dead last row is followed by an insert |
| Json.RoundTrip | json.hpp:75-357 | what is printed at any indent is read back, and reading stops right behind it |
| JsonText.TextIsRead | json.hpp:75-310 | every text of a document of RFC 8259 is read as the document it stands for, and reading stops right behind it: white space between any two tokens, escapes, every spelling of a number in range, keys repeated and in any order |
| JsonText.EscapedIsRead | json.hpp:82-121 | every string whatever, written by the escape table of section 7 of RFC 8259, is read back |
| JsonText.OtherEscapes | json.hpp:91-107 | a backslash before a letter outside that table stands for the letter, the hexadecimal escape included |
| JsonText.NumeralIsRead | json.hpp:229-283 | every numeral that the grammar allows, in range, is read as the integer it spells or kept as a double |
| JsonText.OutOfRange | json.hpp:276-282 | an integer outside 32 bits is refused |
| JsonText.NoDigitsBehind | json.hpp:246-274 | a numeral without digits behind its point or exponent mark is refused |
| JsonText.SkippedExactly | json.hpp:75-79 | skipping takes the longest run of the six characters of isspace and nothing more |
| JsonText.LessExactly | json.hpp:123-169 | keys are ordered by the first character in which they differ, a prefix first |
| JsonText.LayoutOfItems | json.hpp:330-340 | how the items of an array are laid out in lines, indented by two |
| JsonText.LayoutOfField | json.hpp:341-357 | how the field of an object is laid out |
| Json.PutIsAssignment | json.hpp:123-169 | an object field is assigned as in a map |
| Json.PutKeepsOrder | json.hpp:123-169 | the keys of an object stay in order |
| Json.CommaAtTheEnd | json.hpp:171-204 | a text that ends behind a comma is taken for a complete array |
| Json.SavedIsRead | json.hpp:443-506 | the text of a saved list is read back as that list |
| JsonParser.ParseStringAt | json.hpp:82-121 | the loop reads the string that the grammar reads and stops behind it; it always advances |
| JsonParser.ParseNumberAt | json.hpp:229-284 | the same for numbers, with the range check of stoi, and failing on the numerals that stod does not convert, whichever these are |
| JsonParser.ParseArrayAt | json.hpp:171-204 | the same for arrays |
| JsonParser.ParseObjectAt | json.hpp:123-169 | the same for objects |
| JsonParser.ParseValueAt | json.hpp:286-310 | the same for values |
| JsonParser.ValueToString | json.hpp:313-357 | the loops print the text that the round trip is about |
| JsonParser.JsonParser.AppendFromString | json.hpp:364-376 | the value read is appended, or a failure changes nothing |
| JsonParser.JsonParser.SaveToFile | json.hpp:422-462 | the file is the array framing of the printed values |
| JsonParser.JsonParser.LoadFromFile | json.hpp:464-516 | an array gives its elements, any other value itself, and a failure changes nothing |
| JsonParser.SaveAndLoad | json.hpp:422-516 | saving and loading restores the whole list if and only if no string or key in it has a quote or a backslash |
| JsonUnclosed.ValuesAgree | json.hpp:286-310 | what the strict grammar accepts the parser accepts alike, and the other way round as long as text is left |
| JsonUnclosed.ArrayUnclosed | json.hpp:171-204 | an array is accepted unclosed if and only if only white space follows the bracket, or the text ends in a comma behind an element and closing it there gives a whole value; that value is then the result |
| JsonUnclosed.ObjectUnclosed | json.hpp:123-169 | the same for objects |
| JsonUnclosed.UnclosedExactly | json.hpp:286-310 | for every text, and whatever stod converts: accepted though not closed if and only if one of these two holds |
| JsonUnclosed.EndsForExample | json.hpp:123-204 | a bracket and white space are accepted, a bracket and a comma are not |
| JsonSurvival.ValuePaid | json.hpp:75-310 | reading a value uses up two backslashes for each of its backslashes and one for each of its quotes |
| JsonSurvival.SurvivesIffPlain | json.hpp:75-357 | a value without doubles is read back if and only if none of its strings and keys has a quote or a backslash |
| JsonSurvival.QuoteAndBackslashAreLost | json.hpp:82-121 | a string of one backslash is printed and then not read at all, and one with a quote in the middle is cut off there |
| JsonSurvival.FileSurvivesIffPlain | json.hpp:422-516 | the same for a saved list, whatever follows in the text |
| Masking.PreparedKey | websocketpp/frame.hpp:595-606 | the prepared word holds the four key bytes twice in memory, for either byte order |
| Masking.CircshiftMovesBytes | websocketpp/frame.hpp:612-623 | shifting the prepared key moves its bytes in memory that far to the front, for either byte order |
| Masking.ByteMask | websocketpp/frame.hpp:645-655 | every byte of the output is the input byte xored with the key byte of its index modulo four, and nothing else is written |
| Masking.WordMaskExact | websocketpp/frame.hpp:702-719 | word by word gives the bytes of byte_mask, for every length |
| Masking.WordMaskCirc | websocketpp/frame.hpp:768-789 | the same from any offset, and the key that comes back masks what follows |
| Masking.ByteMaskCirc | websocketpp/frame.hpp:830-841 | the same byte by byte |
| Masking.MaskInChunks | websocketpp/frame.hpp:768-841 | for every way of cutting a message into chunks, each masked by words or by bytes with the key of the one before, the result is the message masked at once |
| Masking.MaskedTwice | websocketpp/frame.hpp:645-655 | masking twice is the identity |
| Masking.MaskedConcat | websocketpp/frame.hpp:645-655 | masking a message is masking its parts with the key moved on |
| Utf8.ClassOfByte | websocketpp/utf8_validator.hpp:47-60 | the table gives each byte its class in the syntax of section 4 of RFC 3629 |
| Utf8.TransitionOfTable | websocketpp/utf8_validator.hpp:61-66 | the table holds the transitions that this syntax calls for |
| Utf8.CharsAreEncodings | websocketpp/utf8_validator.hpp:45-78 | the well-formed sequences are the encodings of the code points that are no surrogates |
| Utf8.EncodingsAreChars | websocketpp/utf8_validator.hpp:45-78 | and every such code point has one |
| Utf8.AcceptsExactlyUtf8 | websocketpp/utf8_validator.hpp:69-78 | the automaton accepts exactly the concatenations of well-formed sequences |
| Utf8.RejectsExactlyTheHopeless | websocketpp/utf8_validator.hpp:69-78 | it rejects exactly the texts that no continuation makes well formed |
| Utf8.HoldsCodePoint | websocketpp/utf8_validator.hpp:69-78 | behind a character the code point held is the one encoded |
| Utf8.RejectionStays | websocketpp/utf8_validator.hpp:69-78 | rejection is permanent |
| Utf8.Validator.Consume | websocketpp/utf8_validator.hpp:91-97 | the state is that of the automaton on all bytes so far |
| Utf8.Validator.DecodeRange | websocketpp/utf8_validator.hpp:105-117 | false exactly if the bytes so far are rejected; an empty range says true whatever came before |
| Utf8.Validator.Complete | websocketpp/utf8_validator.hpp:124-127 | true exactly if all bytes so far are well-formed UTF-8 |
| Utf8.Validate | websocketpp/utf8_validator.hpp:143-149 | true exactly for well-formed UTF-8 |
| Utf8.ValidateInChunks | websocketpp/utf8_validator.hpp:81-149 | however the text is cut, the answer is that of the whole |
| Md5Stream.CountsAdd | websocketpp/common/md5.hpp:357-372 | the two words hold the number of bits modulo 2^64, across the carry between them |
| Md5Stream.Offset | websocketpp/common/md5.hpp:360-361 | the low word alone gives the place in the block |
| Md5Stream.LowBytesOfWords | websocketpp/common/md5.hpp:393-404 | the eight length bytes are those of the bit count, low-order first |
| Md5Stream.Md5.Count | websocketpp/common/md5.hpp:365-370 | the counter after counting more bytes |
| Md5Stream.Md5.Append | websocketpp/common/md5.hpp:357-391 | the blocks processed so far are the full blocks of all bytes appended, and the rest waits in the buffer |
| Md5Stream.Md5.Finish | websocketpp/common/md5.hpp:393-412 | the blocks processed are those of the message padded as in sections 3.1 and 3.2 of RFC 1321 |
| Md5Stream.PaddedExactly | websocketpp/common/md5.hpp:393-412 | the padded message is the message, one byte 0x80, zero bytes and the bit count modulo 2^64, in the fewest blocks that hold them |
| Md5Stream.PaddedUnique | websocketpp/common/md5.hpp:393-412 | two messages below 2^61 bytes that are padded alike are the same |
| Md5Stream.DigestOf | websocketpp/common/md5.hpp:349-412 | however the message is cut into calls, the digest is that of the padded whole |
| Md5Stream.AbsorbConcat | websocketpp/common/md5.hpp:384-387 | processing blocks one after the other is processing them at once |
| BinanceSync.InvHolds | hft_clean/binance.hpp:204-310 | the invariant of buffer, flags and threads holds in every state of every interleaving |
| BinanceSync.FedInStreamOrder | hft_clean/binance.hpp:204-310 | messages are fed in stream order, none twice, and never by both threads at once |
| BinanceSync.LiveWithoutHole | hft_clean/binance.hpp:282-310 | once live, every update from the snapshot on has been fed, up to the last |
| BinanceSync.NothingMissedOnceLive | hft_clean/binance.hpp:241-310 | once live, nothing was replayed, and all messages before the first live one are older than the snapshot |
| BinanceSync.GapExactly | hft_clean/binance.hpp:292-300 | at a message past the snapshot a gap is reported exactly when it is the first such message judged and begins later than right behind the snapshot; if it has a predecessor, exactly when that is past the snapshot too |
| BinanceSync.BufferHolds | hft_clean/binance.hpp:204-300 | in every interleaving the messages that wait for the replay follow those already handled without a hole, and a message is replayed only when all before it that are past the snapshot were |
| BinanceSync.SpuriousGapExactly | hft_clean/binance.hpp:241-300 | when a gap is judged, every update between the snapshot and the message has been fed if and only if the message before was replayed and the stream began no later than right behind the snapshot |
| BinanceSync.ReplayNeverGoesLive | hft_clean/binance.hpp:241-310 | a cycle that has replayed anything has fed nothing live, and the next judged message is a gap |
| BinanceSync.ReplayThenGap | hft_clean/binance.hpp:241-310 | a run of two messages: one is replayed, and the next is reported as a gap although nothing is missing |
| BinanceSync.PushedTooLate | hft_clean/binance.hpp:241-310 | a run of three messages: one is replayed, the second reaches the buffer after the drain, and the gap reported at the third is a real one |
| SyncOutcome.JudgedExactly | hft_clean/binance.hpp:294-303 | the step: a judged message is skipped exactly if it is no newer than the snapshot, reported as a gap exactly if it is the first newer one and begins too late, and in all other cases, and only then, handed to the book with the last number moved on to its own |
| SyncOutcome.JudgedMessages | hft_clean/binance.hpp:282-310 | in every run, a message that was judged is older than the snapshot, or handed to the book, or the one at which the gap is reported |
| SyncOutcome.NoMessageLost | hft_clean/binance.hpp:241-310 | in every interleaving, a message read is in the buffer, waits for the replay, was fed, is older than the snapshot, or is the one at the gap |
| SyncOutcome.GoesLive | hft_clean/binance.hpp:204-310 | a run of two messages in which the second is fed live |
| SyncOutcome.EarlyErrorEndsCycle | hft_clean/binance.hpp:207-231 | if the stream has failed before the snapshot is asked for, no snapshot is stored and nothing is ever fed |
| SyncOutcome.FailureIsReported | hft_clean/binance.hpp:210-223 | a failure of the stream is reported, and stays so |
| SyncOutcome.StopIsHeeded | hft_clean/binance.hpp:282-284 | after a stop at most one more message is read |
| SyncOutcome.CycleEndsOk | hft_clean/binance.hpp:220-260 | when the cycle is over the socket thread has finished and told everybody to stop, and without a snapshot there was an error or a stop |
| SyncOutcome.EveryCycleEnds | hft_clean/binance.hpp:204-260 | no run gets stuck before the main thread is done, and a stream of n messages allows at most 20 n + 28 steps |

## Left out

- B+ tree locks: `find_leaf` gives up its locks before the leaf is changed, and `handle_underflow`
  enters a parent whose lock is held (storageTree.hpp:189, 228, 325); the model is sequential.
- The destructor of a node deletes its children (storageTree.hpp:36-42), also those that have just
  moved to a sibling or become the root (322, 329, 360, 367); the model drops the emptied node only.
- AddOrder: a market order with an unfilled rest stays registered without a level, as in the code; the
  contract then promises a book that is consistent but for that order. Runs exclude market orders.
- POST_ONLY orders: the code matches before it rejects (hft_clean/src/order_book.cpp:81-93, 116).
- Prices, and the sum in `total_qty`, `total_volume` and the counters, are unbounded; a 64-bit total
  is what `Int64.Wrap` leaves of it, which is what the fill-or-kill check and the depth report.
- `it->first` is read after the level may be gone (hft_clean/src/order_book.cpp:166); the model uses
  the price taken before the level was walked.
- Time stamps, callbacks, symbols and exchanges of orders and trades.
- Weak memory: the queues are proved under sequential consistency, with items copied atomically.
- Positions of the deque, which are 64-bit and count every push, do not wrap in the model; a capacity
  of zero or below, which has no cells, is excluded.
- A thread of the bounded queue that sleeps while about 2^63 tickets pass (`MpmcWords.LateThread`).
- BoundedIffTwoSlots: a capacity of 0 passes the assertion too, but there is no array without slots
  in C++, and no run of such a queue.
- ExecStatStat: which of the four numbers is asked for, the text of the answer, and the branch for
  an index over strings (utility.hpp:554-598) are not modelled.
- InsertRow: the insertion of the new row into the column indexes (utility.hpp:413-475) is not
  modelled.
- Select: the JSON text of the answer is not modelled, only the rows in it.
- HandleDelete: the removal of the row from the column indexes is not modelled.
- PreparedKey: the branch for a `size_t` of four bytes is not modelled.
- Finish: the sixteen bytes written out of the final state are not modelled; neither are they in
  DigestOf.
- DigestOf: the result is the final state, from which the sixteen bytes are taken.
- The primary key column is taken to sort first, as the index file needs it to; WHERE is a parameter
  that may fail on a row; offsets count words of the index file.
- UPDATE, which passes columns in another order than the insert path sorts them, and the agreement
  of the column indexes with the live rows after delete, restart or vacuum.
- JSON doubles: the numeral is kept, and what `std::stod` and `std::to_string` make of it is not part
  of the model; which numerals `std::stod` converts is left open (`Json.STOD_CONVERTS`), and all
  results hold whatever they are. Text is a sequence of characters below 256.
- TextIsRead: the escapes with four hexadecimal digits, which the code does not decode, are not among
  these texts; `JsonText.OtherEscapes` says what becomes of them.
- The compression rounds of MD5, and how the digest bytes are taken out of the state.
- Words for masking are 64 bits wide, and their alignment is not modelled.
- The bit operations of the UTF-8 decoder are written as arithmetic.
- The resynchronisation loop around a cycle, the parsing of payloads, and all input and output.
- Websocket headers, base64, URIs, the SQL front end, indicators and the older trees, whose proofs
  would only add easier members.
