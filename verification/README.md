# Verification of exchange_engine

A Dafny 4.11 model of the matching engine and its queues, with proofs. Run
`dafny verify dfyconfig.toml` to check all of it.

**The order book.** `PriceTime` is the reference: per side one sequence of resting
orders in price-then-time order, with a naive greedy matcher and one-line
definitions of adding, cancelling, deleting and overwriting. `OrderBooks.OrderBook`
is the engine: sorted vectors of levels with cached totals, pool nodes linked by
index, a free list and an id index, all written in place. Every public method is
proved to do to the represented book what the reference does. `BookRep` defines the
representation and its invariant over value snapshots; `BookSteps` proves what each
elementary change keeps, `BookMoves` what each group of writes does, `BookReads`
what index and caches mean. `MatchingLaws` and `BookRuns` prove laws of the
reference: the closed form of every fill, price-time priority, exact fill-or-kill,
additivity, the uncrossed book, the volume ledger, cancel as an inverse. `BookLaws`
gives what placing, adding and deleting leave behind in closed form.
`EngineRuns` carries whole runs over to the engine. `LevelSets` says what setting a
level does order by order, and `MarketReplay` that depth replay is last-write-wins and
settles after one round. `ObjectPools` and `LowerBound` are the pool and the
branchless search underneath.

**The element queue.** `SpscQueues.SpscQueue` is the queue run by one thread, over
64-bit cursors that wrap, with the element lifetimes tracked slot by slot.
`SpscProtocol` is the same queue run by two threads: one step per shared load,
shared store, construction, read and destruction, any interleaving. `SpscRuns` says
what each operation achieves when its role runs it to the end. `Words` and `Rings`
hold the arithmetic all rest on.

**The byte queue.** `Framing` is the length-prefixed codec and `FastQueues.FastQueue`
the ring that carries it, run by one thread. `FastProtocol` is the same ring run by
two: one step per load of the other role's cursor, byte moved and cursor stored, with
the bytes of one copy moving in any order. `FastRuns` runs its operations to the end.

**Decimal parsing.** `ParseScaled` is the exact scaling of decimal strings;
`NumberShapes` decides from how a text is put together whether it is accepted, with
which value, or refused, with which error.

## Where the code and its documentation differ

- `consume_all` is documented to leave the queue empty
  (src/concurrent_queue/spsc_queue.hpp:358). It drains what the cached write cursor
  shows, which may be a prefix. `ConsumeAll` states exactly when the queue ends empty,
  `ConsumeAllLeavesOne` is a run in which it does not, and `ConsumeTwice` shows two
  calls always suffice.
- For the same reason `try_dequeue_range` and `consume_up_to` may take less than the
  documented minimum of limit and size (lines 182-184 and 399-401). `ConsumeUpTo`,
  `TryDequeueRange` and `TryDequeueBlocks` state exactly when they do not;
  `ConsumeUpToTakesLess`, `DequeueRangeTakesLess` and `DequeueBlocksTakesLess` are
  runs in which they do.
- The trivially copyable branch of `try_emplace_range` starts its first block copy
  `first_chunk` elements into the range (line 155). `TryEmplaceBlocks` and
  `BlocksAsWritten` prove it correct exactly for ranges that start with their first
  block twice over, `BlocksSafeLength` that no length but 0 is safe for every range,
  and `BlocksFromStart` that the two copies are correct when the first starts at the
  beginning. The two-thread model uses the element-wise branch.
- `FastQueue::try_push` looks for room by a length cut to 32 bits and copies the whole
  payload (src/concurrent_queue/fast_queue.hpp:49-62). A payload of 2^32 bytes or more
  for which there is room is queued only as far as that length tells (`PushTruncates`);
  one for which not even that much room is left is refused; in between it is copied
  over the front of the queue. `PushSafeLength` states exactly which lengths are safe.
- `set_level` is documented to leave one anonymous aggregate; it leaves the id of the
  level's oldest order in place (src/engine/order_book.cpp:94-107). `OverwriteAggregates`
  states exactly when the aggregate is anonymous; in `OverwriteKeepsId` it is not.
- `parse_scaled` checks no overflow. `OverflowsExactly` states which texts overflow;
  magnitude 2^63 does even behind a minus sign, where the result would fit.

## What callers owe

`place_order` may rest an order only under an id that is 0 or not resting, or the index
loses the older order (`RestsTwice`). `set_level` with a positive size needs the orders
behind the oldest one of that level to be anonymous, which is weaker than the
documented ban on mixing it with identified orders. An operation that rests an order
needs the resulting book to fit the pool. `FastQueue` needs payloads of safe length, a
requested capacity of at most 2^63, and a destination at least as long as the message.
All are what the code relies on.

## Model

| member | source | states |
|---|---|---|
| `OrderBooks.OrderBook.PlaceOrder` | src/engine/order_book.cpp:10-31 | For every order on every valid book, the trades returned and the whole book afterwards are those of the naive price-time matcher with the order's type applied: the remainder rests for good-till-cancelled, is dropped for immediate-or-cancel, and a fill-or-kill that cannot fill changes nothing. Levels, lists, totals and pool stay in agreement; the index does exactly when the order does not rest under an id that is resting, which an id not resting before the call guarantees. Asks only for a result that fits the pool. |
| `OrderBooks.OrderBook.CancelOrder` | src/engine/order_book.cpp:33-48 | From any position of any list, exactly the named order leaves the book; an unknown or filled id changes nothing. |
| `OrderBooks.OrderBook.AddOrder` | src/engine/order_book.cpp:50-53 | Positive volume rests anonymously behind everything at its price or better; other volume is ignored. |
| `OrderBooks.OrderBook.DeleteOrder` | src/engine/order_book.cpp:55-69 | The volume comes off the orders at that price oldest first, up to what rests there, and nothing else changes; a price without a level is left alone. |
| `OrderBooks.OrderBook.SetLevel` | src/engine/order_book.cpp:71-108 | What rests at the price becomes one order of the given size, or nothing for a size of 0 or less; asks only that no identified order stands behind the oldest one there. |
| `OrderBooks.OrderBook.CollapseLevel` | src/engine/order_book.cpp:94-107 | The tail of a level seeded with many orders is freed node by node and the head takes the whole new size, with pool, totals and index still in agreement. |
| `OrderBooks.OrderBook.DropLevel` | src/engine/order_book.cpp:76-83 | A level removed by an update is emptied node by node although its cached total is stale meanwhile. |
| `OrderBooks.OrderBook.VolumeAtPrice` | src/engine/order_book.cpp:110-114 | The cached total read is the sum of the volumes resting at that price, 0 if none. |
| `OrderBooks.OrderBook.BestBid` | src/engine/order_book.cpp:116-119 | The front level's price is the price of the first bid in priority order, and there is none exactly when no bid rests. |
| `OrderBooks.OrderBook.BestAsk` | src/engine/order_book.cpp:121-124 | The same for asks. |
| `OrderBooks.OrderBook.FindLevel` | src/engine/order_book.cpp:138-155 | The position found splits the side's levels into those better than the price and the rest, on descending bids as on ascending asks. |
| `OrderBooks.OrderBook.Match` | src/engine/order_book.cpp:157-178 | The nested loops over levels and lists produce the trades, remainder and opposite side of the naive matcher, and leave the aggressor's side alone. |
| `OrderBooks.OrderBook.HitFront` | src/engine/order_book.cpp:163-175 | One turn of the inner loop is one step of the naive matcher. |
| `OrderBooks.OrderBook.TakeFront` | src/engine/order_book.cpp:61-67 | Taking volume from the oldest order lowers order and cached total together and drops the order when it is exhausted; the rest of the book stands. |
| `OrderBooks.OrderBook.Rest` | src/engine/order_book.cpp:180-197 | The new order stands behind every order of its own or a better price and ahead of every worse one, and is indexed if identified. |
| `OrderBooks.OrderBook.JoinBack` | src/engine/order_book.cpp:187-196 | A freshly allocated node linked behind a level's tail adds exactly one order to the book. |
| `OrderBooks.OrderBook.PopFront` | src/engine/order_book.cpp:199-208 | The head node leaves its list, the index and the live nodes, and its successor becomes the head. |
| `OrderBooks.OrderBook.Unlink` | src/engine/order_book.cpp:210-217 | Splicing writes the two neighbours' links, or the level's head or tail where there is no neighbour, and nothing else. |
| `OrderBooks.OrderBook.RemoveNode` | src/engine/order_book.cpp:42-47 | Unlinking, lowering the total, freeing and un-indexing a node at any position together take one order out of the representation. |
| `OrderBooks.OrderBook.CanFullyFill` | src/engine/order_book.cpp:219-228 | The sum of cached totals with its early exits answers whether the volume reachable within the limit covers the order. |
| `OrderBooks.OrderBook.ContentsAreWellFormed` | src/engine/order_book.hpp:11-24 | Between calls both sides are in price-time order, volumes are positive, no identified order rests twice, and there are as many live nodes as resting orders, within the capacity. |
| `OrderBooks.OrderBook.constructor` | src/engine/order_book.cpp:7-8 | A new engine holds the empty book. |
| `BookLaws.PlaceClosedForm` | src/engine/order_book.cpp:10-31 | For every order on a well-formed book, by type: no volume, or a fill-or-kill beyond the reachable volume, changes nothing; any other makes exactly the closed-form fills under its own id and takes exactly those off the opposite side, and what is left rests, for good-till-cancelled alone, behind everything no worse and ahead of everything worse. |
| `BookLaws.AddClosedForm` | src/engine/order_book.cpp:50-53 | The order added stands behind everything no worse and ahead of everything worse; nothing else moves. |
| `BookLaws.DeleteClosedForm` | src/engine/order_book.cpp:55-69 | At the price and side named, order j of the level keeps its volume less what is left of the deletion after the orders before it, and the exhausted ones, which are the oldest, are gone; the orders at every other price and on the other side are as they were. |
| `BookLaws.DeleteIsDetermined` | src/engine/order_book.cpp:55-69 | No other book in priority order meets that at every price, so the whole book afterwards is fixed. |
| `BookReads.NodesArePartitioned` | src/engine/order_book.hpp:14-18 | Lists are acyclic and pairwise disjoint, and every pool slot is free or in exactly one list. |
| `BookReads.IndexIsResting` | src/engine/order_book.hpp:171 | The index holds exactly the identified orders of the book. |
| `BookReads.InvariantIsWellFormed` | src/engine/order_book.hpp:167-171 | Every state that meets the representation invariant represents a well-formed book. |
| `BookReads.CachedVolume` | src/engine/order_book.hpp:108-114 | A level's cached total is the volume of the orders at its price. |
| `BookReads.CancelIsRemove` | src/engine/order_book.cpp:33-48 | The order the index names is the only one the reference model's cancel deletes, wherever it stands. |
| `BookReads.SweepCovers` | src/engine/order_book.cpp:18-22 | The fill-or-kill test fails exactly when matching would leave a remainder. |
| `BookSteps.RemoveKeeps` | src/engine/order_book.cpp:199-217 | Taking any node out of any list keeps order, links, ownership, free list, index and the other levels' totals. |
| `BookSteps.RemoveDeletes` | src/engine/order_book.cpp:199-217 | ... and deletes exactly that order from the book. |
| `BookSteps.UnlinkedChain` | src/engine/order_book.cpp:210-217 | After splicing, the remaining nodes form a well-formed doubly linked list in the same order, and no node outside it was touched. |
| `BookSteps.JoinAdds` | src/engine/order_book.cpp:187-196 | A node linked behind a tail adds its order at the end of that level's stretch of the book and nowhere else. |
| `BookSteps.EraseKeeps` | src/engine/order_book.cpp:46 | Dropping an empty level keeps every invariant and the book. |
| `BookSteps.EmplaceKeeps` | src/engine/order_book.cpp:182-185 | Inserting an empty level at its sorted place keeps every invariant and the book. |
| `BookSteps.CollapseKeeps` | src/engine/order_book.cpp:94-107 | Collapsing a level to its head keeps every invariant. |
| `MatchingLaws.SweepFillsAreWaterfall` | src/engine/order_book.cpp:157-178 | Closed form of every fill: what is left of the order after everything with priority, capped by the resting volume, at the resting price; nothing else trades. |
| `MatchingLaws.SweepRestIsWaterfall` | src/engine/order_book.cpp:157-178 | Closed form of what is left: all but the last order hit are gone, the last may be reduced, the rest is untouched; remainder plus traded volume is the order's volume. |
| `MatchingLaws.PriceTimePriority` | src/engine/order_book.cpp:157-178 | Trade prices are monotone and within the limit, and whatever stood in front of the last order hit was consumed whole. |
| `MatchingLaws.RemainderIsShortfall` | src/engine/order_book.cpp:219-228 | The remainder of a match is exactly what the reachable volume does not cover. |
| `MatchingLaws.FillOrKillIsAllOrNothing` | src/engine/order_book.cpp:18-30 | A fill-or-kill order trades its whole volume when that is reachable and otherwise leaves the book unchanged with no trades; it never rests. |
| `MatchingLaws.SweepIsAdditive` | src/engine/order_book.cpp:157-178 | Two matches in a row at one limit leave the side, the total remainder and the fill per resting id of one match of the summed volume. |
| `MatchingLaws.ImmediateOrCancelIsAdditive` | src/engine/order_book.cpp:24-30 | Splitting an immediate-or-cancel order in two changes neither the book nor what any resting order sells. |
| `EngineRuns.Execute` | src/engine/order_book.cpp:10-108 | Any run of the five public changes on the engine, from any reachable book, ends with the book and the trades of the reference run; its volume balances, and from an uncrossed book it is never crossed exactly when no volume rested without matching could have traded. |
| `BookRuns.NeverCrossed` | src/engine/order_book.cpp:10-108 | Over any run of placing, cancelling, adding, deleting and setting levels, both sides stay in priority order with positive volumes, and the book is uncrossed before, between and after the operations exactly when every addition and level set, where it comes, has nothing across the book to trade with. |
| `BookRuns.OpKeeps` | src/engine/order_book.cpp:10-108 | Each single operation keeps the order of both sides, and keeps an uncrossed book uncrossed exactly when it rests nothing unmatched that the best opposite price crosses. |
| `BookRuns.AddUncrossed` | src/engine/order_book.cpp:50-53 | Adding without matching leaves an uncrossed book uncrossed exactly when the opposite side is empty or its best price does not cross the one added at. |
| `BookRuns.OverwriteKeeps` | src/engine/order_book.cpp:71-108 | The same for setting a level: with a positive size it keeps the book uncrossed exactly under that condition, otherwise always. |
| `BookRuns.MatchedRunsAreHarmless` | src/engine/order_book.cpp:10-69 | Runs of placing, cancelling and deleting alone meet that condition. |
| `BookRuns.AddCanCross` | src/engine/order_book.cpp:50-53 | Two additions, and as well two level sets, that cross an empty book: neither matches. |
| `FlatLaws.AddedTwice` | src/engine/order_book.cpp:196 | Resting an order under a resting id leaves a book that holds the id twice, which no index entry can tell apart. |
| `BookRuns.CanRestTwice` | src/engine/order_book.cpp:196 | A run that does so: the same order placed twice. |
| `BookRuns.LedgerBalances` | src/engine/order_book.cpp:10-108 | Over any run, volume resting at the start plus accepted volume is volume resting at the end plus twice the traded volume plus what was cancelled, deleted, dropped and replaced by level sets. |
| `BookRuns.OpBalances` | src/engine/order_book.cpp:10-108 | The same for each single operation, with deleted volume the lesser of what was asked and what rested at the price, and replaced volume all that rested there. |
| `BookRuns.PlaceThenCancel` | src/engine/order_book.cpp:33-48 | Placing an order of unused id that crosses nothing and cancelling it restores the book. |
| `BookRuns.CancelIsExact` | src/engine/order_book.cpp:33-48 | Cancelling removes the order from its position and keeps every other order in its place in line. |
| `BookRuns.CancelOfAbsent` | src/engine/order_book.hpp:51 | Cancelling an id that does not rest, unknown or already filled, changes nothing. |
| `ObjectPools.ObjectPool.Allocate` | src/memory/object_pool.hpp:57-75 | The slot handed out was not live, becomes the only new live one with cleared links, and is the most recently freed one if any was freed. |
| `ObjectPools.ObjectPool.Deallocate` | src/memory/object_pool.hpp:86 | Exactly that node stops being live and it goes on top of the free stack. |
| `ObjectPools.ObjectPool.SizeCountsLive` | src/memory/object_pool.hpp:78-80 | Slots minus free slots is the number of live nodes. |
| `ObjectPools.ObjectPool.constructor` | src/memory/object_pool.hpp:46-49 | A new pool has no live node. |
| `LowerBound.BranchlessLowerBound` | src/engine/branchless_binary_search.hpp:30-43 | Returns the partition point of any range partitioned by the comparator, within bounds, after a number of comparisons that depends on the length alone. |
| `LowerBound.HalvingsIsLog2` | src/engine/branchless_binary_search.hpp:33-41 | That number is the binary logarithm of the length, rounded down, plus one. |
| `LowerBound.SortedIsPartitioned` | src/engine/branchless_binary_search.hpp:19-20 | Every range sorted by a strict weak order is partitioned by every value. |
| `MarketReplay.ReplayIsLastWrite` | benchmark/market_replay.cpp:168-185 | After any feed onto any book, the volume at every price of each side is the last size written there (0 if that was not positive), or what rested before. |
| `MarketReplay.LastWriteWins` | benchmark/market_replay.cpp:168-185 | If a write of some event is the last of the feed at its price and side, its size is the total volume of the orders there afterwards, 0 if not positive. |
| `MarketReplay.UnmentionedStays` | benchmark/market_replay.cpp:168-185 | A price no event mentions keeps the very orders that stood there. |
| `MarketReplay.ReplayIsIdempotent` | benchmark/market_replay.cpp:212-219 | Replaying the same feed again leaves the aggregate view unchanged. |
| `MarketReplay.ReplayTwice` | benchmark/market_replay.cpp:212-219 | On any book in priority order, replaying the same feed again leaves the very same book: every order, id and place in line. |
| `MarketReplay.ReplayLevels` | benchmark/market_replay.cpp:168-185 | After any feed onto any book, the orders at every price are what the feed's writes at that price make of those that stood there: each non-positive size clears the level and each positive one leaves one order under the id at its front. |
| `MarketReplay.OverwriteSetsVolume` | src/engine/order_book.hpp:64-79 | Setting a level sets the volume at that price and side and no other, however many orders made it up. |
| `LevelSets.OverwriteAtPrice` | src/engine/order_book.cpp:71-108 | Setting a level leaves exactly one order of the size at that price, or none, and the orders at every other price and on the other side as they were. |
| `LevelSets.OverwriteAggregates` | src/engine/order_book.hpp:69-75 | The documented single anonymous aggregate results exactly when the level's oldest order was anonymous or there was no level. |
| `LevelSets.OverwriteKeepsId` | src/engine/order_book.cpp:103-107 | A run in which it does not: an identified order placed, then its level set. |
| `LevelSets.LevelsDetermine` | src/engine/order_book.hpp:14-18 | A side in priority order is determined by the orders at each price. |
| `LevelSets.VolumeIsTotal` | src/engine/order_book.hpp:86-92 | The aggregate volume at a price is the sum of the orders standing there. |
| `MarketReplay.Apply` | benchmark/market_replay.cpp:180-185 | The two loops over an event's levels have the effect of its bid writes and then its ask writes in order, and keep the book anonymous; seeding from a snapshot is the same loop pair. |
| `MarketReplay.ReplayFeed` | benchmark/market_replay.cpp:247-248 | Applying a feed event by event is the replay the laws above speak of. |
| `Words.MaskIsMod` | src/concurrent_queue/spsc_queue.hpp:432-437 | Masking with a power of two less one is reduction modulo that power. |
| `Words.WrappedSlot` | src/concurrent_queue/spsc_queue.hpp:432-437 | The slot of a 64-bit wrapped cursor is that of the unbounded count. |
| `Words.WrappedDifference` | src/concurrent_queue/spsc_queue.hpp:41-45 | The wrapped difference of two wrapped counts is their true difference. |
| `SpscQueues.SpscQueue.CursorsAgree` | src/concurrent_queue/spsc_queue.hpp:41-45 | Equal cursors mean equal counts in every state, so full and empty never coincide. |
| `SpscQueues.SpscQueue.HasRoom` | src/concurrent_queue/spsc_queue.hpp:450-460 | With no step of the other role under way the answer is exact, stale cache or not. |
| `SpscQueues.SpscQueue.Readable` | src/concurrent_queue/spsc_queue.hpp:485-490 | The count is what the cached cursor shows, or everything when that is nothing; 0 only on an empty queue. |
| `SpscQueues.SpscQueue.TryEmplace` | src/concurrent_queue/spsc_queue.hpp:106-116 | Appends the element exactly when the queue is not full, into a slot that held none. |
| `SpscQueues.SpscQueue.TryEmplaceRange` | src/concurrent_queue/spsc_queue.hpp:159-168 | The element-wise branch appends the whole range exactly when it fits and otherwise nothing. |
| `SpscQueues.SpscQueue.TryEmplaceBlocks` | src/concurrent_queue/spsc_queue.hpp:144-169 | The block-copy branch as written: what it appends when it fits and stays inside the range, and that this is the range exactly when the range starts with its first block twice over. |
| `SpscQueues.SpscQueue.TryDequeue` | src/concurrent_queue/spsc_queue.hpp:281-291 | Takes the front element exactly when there is one and destroys it once. |
| `SpscQueues.SpscQueue.TryDequeueRange` | src/concurrent_queue/spsc_queue.hpp:201-235 | Fills the buffer's front with the first elements in order, as many as are visible and fit, and leaves the rest of both alone; that is the documented minimum of buffer and size exactly when the cached write cursor was exhausted, up to date, or a buffer's length ahead. |
| `SpscQueues.SpscQueue.TryDequeueBlocks` | src/concurrent_queue/spsc_queue.hpp:214-223 | The two block copies around the wrap do the same, under the same exact condition. |
| `SpscQueues.SpscQueue.ConsumeUpTo` | src/concurrent_queue/spsc_queue.hpp:414-429 | Hands over the lesser of the limit and the visible count, in order: a non-empty prefix of any non-empty queue for any positive limit; it is the documented minimum of limit and size exactly when the cached write cursor was exhausted, up to date, or the limit ahead. |
| `SpscQueues.SpscQueue.ConsumeAll` | src/concurrent_queue/spsc_queue.hpp:370-383 | Hands over everything visible; the documented empty queue results exactly when the cached write cursor was exhausted or up to date. |
| `SpscQueues.ConsumeAllLeavesOne` | src/concurrent_queue/spsc_queue.hpp:358-360 | A run of four calls after which consuming everything leaves one element, against the documentation. |
| `SpscQueues.ConsumeUpToTakesLess` | src/concurrent_queue/spsc_queue.hpp:399-401 | A run after which a limit of two on two queued elements takes one. |
| `SpscQueues.DequeueRangeTakesLess` | src/concurrent_queue/spsc_queue.hpp:182-184 | The same for a dequeue into a buffer of two, element by element. |
| `SpscQueues.DequeueBlocksTakesLess` | src/concurrent_queue/spsc_queue.hpp:182-184 | And in blocks. |
| `SpscQueues.ConsumeTwice` | src/concurrent_queue/spsc_queue.hpp:370-383 | Two calls in a row always empty the queue and hand over all of it in order. |
| `SpscQueues.DequeueSingly` | src/concurrent_queue/spsc_queue.hpp:281-291 | Dequeuing one at a time takes the elements a batch takes, in the same order. |
| `SpscQueues.SpscQueue.Clear` | src/concurrent_queue/spsc_queue.hpp:337-343 | The queue ends empty and no slot holds an element; each was destroyed once. |
| `SpscQueues.SpscQueue.Destroy` | src/concurrent_queue/spsc_queue.hpp:86-89 | No element outlives the queue. |
| `SpscQueues.SpscQueue.Size` | src/concurrent_queue/spsc_queue.hpp:259-265 | The wrapped difference of the cursors is the number of queued elements. |
| `SpscQueues.BlocksAsWritten` | src/concurrent_queue/spsc_queue.hpp:151-158 | The block-copy branch of the range push, whose first copy reads a block too far into the range, enqueues a range exactly when the range starts with its first block twice over, whatever its elements and the ring's. |
| `SpscQueues.BlocksFrom` | src/concurrent_queue/spsc_queue.hpp:151-158 | From wherever the first copy reads, the branch enqueues a range exactly when it finds there what the range starts with. |
| `SpscQueues.BlocksSafeLength` | src/concurrent_queue/spsc_queue.hpp:151-158 | Every range of a given length is enqueued only if that length is 0. |
| `SpscQueues.BlocksAsWrittenReadPastEnd` | src/concurrent_queue/spsc_queue.hpp:151-158 | A range of one element is read past its end. |
| `SpscQueues.BlocksFromStart` | src/concurrent_queue/spsc_queue.hpp:121-129 | Started at the first element, the two block copies would enqueue every range that fits, in order across the wrap. |
| `SpscProtocol.RunKeeps` | src/concurrent_queue/spsc_queue.hpp:39-50 | Every interleaving of the roles' single steps keeps the invariant tying wrapped cursors, stale caches, slots and history together. |
| `SpscProtocol.LosslessFifo` | src/concurrent_queue/spsc_queue.hpp:46-48 | From an empty queue under every interleaving, elements handed over or dropped so far, then those in the ring, are the concatenation of what the successful pushes handed in, and write minus read stays between 0 and N. |
| `SpscProtocol.NeverFaults` | src/concurrent_queue/spsc_queue.hpp:49-50 | After every interleaving no fault has occurred, the slot about to be constructed in is empty and the one about to be read or destroyed holds the oldest element left, the assertions of room and of an element never fire, destruction follows construction order, and size() from either role stays within N. |
| `SpscProtocol.CheckRoomKeeps` | src/concurrent_queue/spsc_queue.hpp:112 | With room found, the size() taken before constructing is published less released and below N, whatever the consumer does between its two loads. |
| `SpscProtocol.CheckElementKeeps` | src/concurrent_queue/spsc_queue.hpp:285 | With an element found, the size() taken before reading it is what had been published at its first load less released and above 0, whatever the producer does between its two loads. |
| `SpscProtocol.RolesApart` | src/concurrent_queue/spsc_queue.hpp:49-50 | The slot the producer is about to construct in is never the one the consumer is about to read or destroy, in a take or in clear. |
| `SpscProtocol.GivesUpOnlyWhenItMust` | src/concurrent_queue/spsc_queue.hpp:450-490 | A push fails exactly when, at its reload, there was no room, and a take fails exactly when, at its reload, the queue was empty. |
| `SpscProtocol.ProducerKeeps` | src/concurrent_queue/spsc_queue.hpp:450-472 | Each producer step keeps the invariant whatever the consumer is in the middle of. |
| `SpscProtocol.ConsumerKeeps` | src/concurrent_queue/spsc_queue.hpp:485-502 | Each consumer step keeps the invariant whatever the producer is in the middle of. |
| `SpscProtocol.NothingOutlives` | src/concurrent_queue/spsc_queue.hpp:80-89 | After any run that ends with both roles idle, the destructor leaves every element ever constructed destroyed exactly once and no slot live. |
| `SpscRuns.PushCompletes` | src/concurrent_queue/spsc_queue.hpp:450-472 | From every reachable state, a push run to its end publishes its whole range exactly when the range fits beside what is published and not released, however stale the cached cursor, and otherwise nothing. |
| `SpscRuns.TakeCompletes` | src/concurrent_queue/spsc_queue.hpp:414-429 | From every reachable state, a take run to its end delivers exactly the first elements in line, as many as its limit and its view allow, and it sees some whenever any are published. |
| `SpscRuns.ClearCompletes` | src/concurrent_queue/spsc_queue.hpp:337-343 | From every reachable state, a clear run to its end drops exactly what was published at its start, in order. |
| `SpscRuns.ProducerSizeCompletes` | src/concurrent_queue/spsc_queue.hpp:259-265 | Undisturbed, size() called by the producer returns published less released. |
| `SpscRuns.ConsumerSizeCompletes` | src/concurrent_queue/spsc_queue.hpp:259-265 | And so it does called by the consumer. |
| `FastQueues.RoundUpPow2` | src/concurrent_queue/fast_queue.hpp:105-109 | The least power of two not below the request. |
| `FastQueues.FastQueue.constructor` | src/concurrent_queue/fast_queue.hpp:32-35 | A new queue is empty with the least sufficient power of two of bytes. |
| `FastQueues.FastQueue.TryPush` | src/concurrent_queue/fast_queue.hpp:48-66 | Fails exactly when four bytes and the payload length the header can tell exceed the free bytes; otherwise that much of the message is queued last, which is all of it exactly below 2^32 bytes, and the live bytes encode the longer queue, wherever the ring wraps. Asks for a length at which that is so for every payload; the bytes of the ring change as PushBytes says. |
| `FastQueues.PushSafeLength` | src/concurrent_queue/fast_queue.hpp:48-66 | A push is refused or appends its frame, for every payload of a length, exactly when all of that length fits or not even the part its 32-bit length tells does; in between some payload spoils the front of the queue. |
| `FastQueues.PushTruncates` | src/concurrent_queue/fast_queue.hpp:49-50 | A message of 2^32 bytes, pushed onto a queue with room for it, is accepted and arrives empty. |
| `FastQueues.FastQueue.TryPop` | src/concurrent_queue/fast_queue.hpp:73-90 | Empty exactly when no message is queued; otherwise the oldest message is copied out whole, the rest of the span is untouched, and the corruption check never fires. |
| `FastQueues.FastQueue.CopyIn` | src/concurrent_queue/fast_queue.hpp:112-119 | The bytes land at their positions across the wrap and no other position of the lap changes. |
| `FastQueues.FastQueue.CopyOut` | src/concurrent_queue/fast_queue.hpp:122-129 | The bytes between two positions come out in order across the wrap. |
| `FastQueues.FastQueue.LiveBytesDecode` | src/concurrent_queue/fast_queue.hpp:16-24 | In every reachable state the bytes between the cursors decode to exactly the queued messages. |
| `FastQueues.FastQueue.EmptyMeansEqual` | src/concurrent_queue/fast_queue.hpp:96-99 | The cursors coincide exactly when no message is queued. |
| `FastProtocol.RunKeeps` | src/concurrent_queue/fast_queue.hpp:48-90 | Every interleaving of loads, byte copies and cursor stores keeps the invariant: the live bytes are the frames of the messages sent and not yet received, the producer's copy is confined to free bytes, and the consumer's to the oldest frame. |
| `FastProtocol.LosslessMessages` | src/concurrent_queue/fast_queue.hpp:13-24 | From an empty queue, under every interleaving, the messages received are the first of those sent, the bytes between the cursors decode to the others, and the corruption check never fires. |
| `FastProtocol.StartsWhenItCan` | src/concurrent_queue/fast_queue.hpp:52-56 | Whatever the other role is in the middle of, a push of a safe length is refused exactly when the frame of what it carries does not fit beside the messages queued, and a pop exactly when none is. |
| `FastProtocol.RolesApart` | src/concurrent_queue/fast_queue.hpp:61-66 | The bytes the producer is copying in and those the consumer is copying out never share a slot. |
| `FastProtocol.CheckHeaderKeeps` | src/concurrent_queue/fast_queue.hpp:82 | Once the header is read, the bytes seen are at least four and the length it tells, so the corruption check holds. |
| `FastRuns.PushCompletes` | src/concurrent_queue/fast_queue.hpp:48-66 | From every reachable state, a push of a safe length run to its end, its bytes copied in any order, stores the cursor and sends what it carries exactly when four bytes and the payload fit beside the messages queued, and otherwise changes nothing. |
| `FastRuns.PopCompletes` | src/concurrent_queue/fast_queue.hpp:73-90 | From every reachable state with a message queued, a pop run to its end, its bytes copied in any order, receives exactly the oldest message and releases its bytes. |
| `Framing.DecodeInvertsEncode` | src/concurrent_queue/fast_queue.hpp:20-21 | Cutting framed bytes by their length headers gives back the messages. |
| `Framing.HeaderRoundTrips` | src/concurrent_queue/fast_queue.hpp:58-59 | Every 32-bit length survives its four bytes. |
| `Framing.FrameLayout` | src/concurrent_queue/fast_queue.hpp:20-21 | A message below 2^32 bytes is four bytes of length, lowest first, and then its payload. |
| `Framing.SizeAppends` | src/concurrent_queue/fast_queue.hpp:50 | Every message queued takes up four bytes and its payload. |
| `ParseScaled.Scale` | src/io/binance_depth.cpp:117-160 | The four loops accept and reject, with the same error, what the grammar of signed decimals does, and the largest running value, for refused texts too, is that of the digits taken, which for accepted ones is the magnitude returned. |
| `ParseScaled.ParseWhole` | src/io/binance_depth.cpp:129-137 | The integer part is read up to the first point, or refused at a character that is no digit. |
| `ParseScaled.ParseFraction` | src/io/binance_depth.cpp:139-155 | The digits asked for are taken, the rest only checked, with the error of the stage that fails; the running value peaks at the digits read. |
| `ParseScaled.Pad` | src/io/binance_depth.cpp:158 | Missing decimals multiply the value by ten each. |
| `NumberShapes.AcceptedExactly` | src/io/binance_depth.cpp:117-160 | The texts accepted are exactly an optional sign, digits and an optional point and digits, with a digit before the point or, if decimals are asked for, behind it; negative precision is refused. |
| `NumberShapes.DecimalValue` | src/io/binance_depth.cpp:117-160 | Such a text gives its digits as an integer, scaled and rounded down, with its sign: more decimals than asked for are cut off. |
| `NumberShapes.DecimalAccepted` | src/io/binance_depth.cpp:156 | A decimal without a digit that counts is refused for that, or for being empty; otherwise the digits taken in are those before the point, the decimals asked for and the padding. |
| `NumberShapes.RefusedWhole` | src/io/binance_depth.cpp:129-137 | A text that stops being a decimal before any point is refused as an invalid digit, after taking in the digits up to there. |
| `NumberShapes.RefusedFraction` | src/io/binance_depth.cpp:139-155 | One that does so behind its first point is refused as an invalid digit within the decimals asked for and as an invalid trailing character after them. |
| `NumberShapes.EveryTextHasShape` | src/io/binance_depth.cpp:117-160 | Every text is one of these, so that the laws decide all inputs. |
| `ParseScaled.ScalingIsExact` | src/io/binance_depth.hpp:39-48 | An accepted decimal x gives the sign of x times abs(x) * 10^decimals rounded down. |
| `ParseScaled.ParseInvertsPrint` | src/io/binance_depth.hpp:39-48 | Parsing the canonical decimal form of any integer at any precision gives the integer back. |
| `ParseScaled.ScalingIsMonotone` | src/io/binance_depth.hpp:39-48 | A larger decimal never gives a smaller integer. |
| `ParseScaled.OverflowsExactly` | src/io/binance_depth.cpp:129-158 | Some running value leaves 64 signed bits exactly when the digits taken, without leading zeros, number more than 19 or are 19 behind 9223372036854775807; for accepted text exactly when the magnitude reaches 2^63, sign or no sign. |
| `ParseScaled.TakenFits` | src/io/binance_depth.cpp:129-158 | No more digits are taken than the integer part has and the decimals ask for. |
| `ParseScaled.FitsInt64` | src/io/binance_depth.cpp:129-158 | In particular never with at most 18 integer digits and decimals together. |
| `ParseScaled.NineteenDigitsDoNotFit` | src/io/binance_depth.cpp:129-158 | With 19 the value itself need not fit. |

## Left out

- OrderBooks.OrderBook.SetLevel: does not cover identified orders behind the oldest one of a level, whose index entries the code leaves dangling; the documentation rules such use out.
- OrderBooks.OrderBook.PlaceOrder: says nothing of calls that follow once an id rests twice, the older order then having no index entry.
- OrderBooks.OrderBook.CancelOrder: writes the level vector after the pool and the index, not before; the writes are independent.
- SpscQueues.SpscQueue.TryEmplaceBlocks: stops where the first block copy would read past the end of the range, which the language leaves undefined.
- FastQueues.FastQueue.TryPush: does not cover the lengths PushSafeLength shows unsafe, at which the queue's bytes depend on the payload.
- FastProtocol.StartsWhenItCan: pushes of unsafe lengths do not start in the two-thread model.
- Volumes are unbounded integers: overflow of 64-bit sums of resting volume is not modelled. Prices and ids are unbounded naturals; no arithmetic is done on them.
- The inner loops of `match` and `delete_order` share one method per turn, and the pieces of `set_level`, `rest` and `cancel_order` are methods of their own.
- Memory orders: acquire and release accesses are single atomic steps; a role's private copy and the shared cursor are written in one step.
- Calls of `size` from a third thread, and of the `is_empty` and `is_full` wrappers.
- Callbacks of the consume methods are modelled as the sequence of elements handed over.
- Hash-map internals, vector growth, exceptions, moves, alignment and object lifetime beyond constructed and destroyed.
- JSON documents, network and file tools, benchmark drivers, random feeds, third-party queues.
