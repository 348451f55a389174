# AstraFeed: a verified model

This project models the AstraFeed market-data engine in Dafny and proves what it promises. The
engine merges redundant MoldUDP64 lines, runs the daily life cycle of Nasdaq TotalView-ITCH 5.0 and
keeps an aggregate order book per stock. The model is one connected stack, from datagram bytes to
price levels:

- **Books.** `PriceBitmap`, `PriceIndex`, `PriceTraversal` and `PriceLevelStore` are the paged
  price arena with its cached bests and its two tiers of three-level bitmaps; `OrderTable` is the
  order directory. `ReferenceBook` is the simple book: a map from order reference to order.
  `BookInvariant`, `Stores`, `OrderBook`, `BookManager` and `BookRuns` prove that the fast form
  follows the simple one on every run and that the defensive checks never fire. `BookLaws` says
  what each mutation of the simple book means, and `ShareLedger` where the shares go.
- **Life cycle.** `ItchWire` holds the fields and the message lengths. `ItchReference` says what a
  day of messages means; `StockDirectory` and `ItchParser` are proved against it. `ItchPrinter` lays
  the messages out as records of the ITCH 5.0 format, and `ItchLaws` says what each of them does.
- **Sequencing.** `GapBuffer` is the reorder table. `MoldWire` is the framing. `Sequencing` is the
  channel as a value with one step per datagram; `SequencingRuns`, `LineMerge` (one packetization),
  `AnyPackets` (overlapping ones), `ChannelLaws` and `Leftovers` prove what holds on all runs;
  `MoldUdpDecoder` is the object, proved against that channel and wired to the real parser and
  books.
- **Replay and hashing.** `ItchMoldUdpSource` cuts a BinaryFILE into datagrams, `RoundTrip` proves
  that decoding undoes it, and `Sha256` is the streaming hasher.

State that the program changes in place is a class over arrays with a `Valid()` invariant. Sizes
that the program fixes at build or start-up (gap-buffer slots, direct order slots, fallback
buckets, page capacity) and the hash functions are parameters, so every statement holds for all of
them. `dafny verify dfyconfig.toml` checks everything.

The reference books know how much room there is. `ReferenceBook.Sizes` holds the configuration of
the order table and the number of price pages, and `ReferenceBook.Books` counts the pages and
fallback slots in use. So every answer of the fast books, including each of the three refusals for
want of room, is a function of the simple ones, and the same holds of the parser and the decoder.

## Main results

1. Every run of mutations with any arguments, from any reachable state of the books, gives exactly
   the answers and the state of the simple books, reports none of the seven defensive results, and
   leaves every level with exactly the sum and the number of the live orders at its price
   (`BookRuns.ApplyAll`).
2. The arena invariant `PriceIndex.Wf` (owners and roots inverse to each other, page and book
   summaries, cached bests, both bitmap tiers, the singleton-page rule) survives activation,
   adjustment, deactivation and page commitment, and the walk over it is the sorted list of active
   prices, bids falling and asks rising (`PriceLevelStore.PriceLevelStore.WalkSide`, `TopTen`). The
   published views are stated against the live orders themselves
   (`OrderBook.OrderBook.GetTopOfBook`, `GetBookUpdate`).
3. Whatever arrives, the parser sees a contiguous run of the stream, each message once
   (`SequencingRuns.DeliveredExactlyOnce`); with one packetization the state depends only on which
   packets arrived (`LineMerge.MergeIsConfluent`, `OrderDoesNotMatter`, `SessionCompletes`), and
   under any packetization `next` and the delivered messages do
   (`AnyPackets.NextIsFirstMissing`, `AnyPacketsAgree`).
4. The books behind the decoder are those of the stream replayed in order up to `next`
   (`MoldUdpDecoder.BooksFollowStream`), with one packetization those of the packets before the
   first missing one (`BooksFollowPackets`, `SameArrivalsSameBooks`). Decoders with the same
   arrivals agree on them under any packetization (`AnyPacketsSameBooks`), and an accepted end of
   session means a complete day and empty books (`EndIsComplete`, `EndLeavesBooksEmpty`).
5. A stream that the reference accepts, with room for its orders, is never refused
   (`SequencingRuns.PlayableIsNeverRefused`). `ItchReference.NeverForRoom` gives sizes with which no
   message of a feed is refused for want of room, and `AmpleRoom` shows that such sizes have no
   influence on the day.
6. Packetizing a well-formed BinaryFILE and decoding it is the identity, whatever the packet sizes
   (`RoundTrip.EmitAll`, `RoundTrip.PacketizeThenDecode`, `RoundTrip.ReplayFile`).
7. Printing and reading the nine book, directory and event messages are inverse to each other
   (`ItchPrinter.ParsePrint`, `PrintParse`), and for each of them the day after a printed message is
   given in terms of its fields, with the exact condition under which it is accepted
   (`ItchLaws.AddDoes` and its seven companions).
8. Shares are conserved on every run: what is in the books, executed, cancelled or withdrawn is what
   was there or entered (`ShareLedger.SharesConserved`).
9. The health of the channel is a statement about the arrivals: as long as nothing is lost for good
   it is good exactly when nothing is stored and everything announced has been delivered
   (`ChannelLaws.GoodExactly`, `GoodIsComplete`), and all arrivals belong to one session and agree on
   its end (`OneSession`, `EndsAgree`, `BeyondEndFails`).

Three observations about the code:

- Rejections are not quite without trace. A replacement that moves an order to another price whose
  order count is already 2^32 - 1 has committed and erased its new reference before the move is
  refused, so that reference and its slot count as taken from then on; live orders and the whole
  price arena are unchanged. `ReferenceBook.Leaks` is the exact condition on the books before the
  call: nothing else speaks against the replacement, its reference is a new one with a free slot,
  and the destination is `Crowded`. `ReferenceBook.LeaksExactly` and the contract of
  `OrderBook.OrderBook.ReplaceOrder` state both directions, and `BookRuns.LeakRun` is a run from a
  new book manager that ends in such a refusal. Every other rejection leaves everything as it was.
- In the gap buffer, "every slot from an entry's natural slot to its slot is occupied" is not
  enough on a full table: `GapBuffer.PathsUsedIsNotEnough` shows a full ring of three in which it
  holds and from which the backward shift loses an entry. The invariant `GapBuffer.WellPlaced` adds
  that the ring can be cut open so that no entry's path crosses the cut, and insertion and deletion
  keep that too.
- A stored packet that became obsolete is not always removed, although the comment at
  src/codec/MoldUdpDecoder.cpp:399-402 says so. The drain takes the nearest start first and looks
  back 144 numbers, so it can jump over a packet. `Leftovers.SkippedExactly` says which of the
  packets at or below `next` a drain leaves, and `Leftovers.LeftoverIsForever` that such a packet
  stays for good and the session can then never end. In `Leftovers.StuckRun` packet [2,3) and packet
  [3,147) arrive first and [1,3) last: the whole day is delivered, [2,3) stays, and the correct end
  marker fails the session (`StuckForGood`), while the same datagrams in sending order end it
  (`InOrderCloses`). So with overlapping packets the verdict on a session depends on the order of
  arrival, which is why `AnyPackets` speaks of `next`, messages and books. With one packetization
  `LineMerge.MergeIsConfluent` excludes it.

## Model

| member | source | states |
|---|---|---|
| `PriceBitmap.SetBitAddsOne` | include/astra/utils/PriceBitmap.hpp:64-74 | setting an index adds exactly it to the represented set and keeps each summary bit equal to "the child word is nonzero" |
| `PriceBitmap.ResetBitRemovesOne` | include/astra/utils/PriceBitmap.hpp:77-93 | resetting an index removes exactly it, with the early exits that keep the two summary levels right |
| `PriceBitmap.TestIsMembership` | include/astra/utils/PriceBitmap.hpp:95-98 | the shift-and-mask test is membership in the represented set |
| `PriceBitmap.IsEmptyIsEmpty` | include/astra/utils/PriceBitmap.hpp:100-102 | the one-word emptiness test holds exactly when no bit is set |
| `PriceBitmap.FindHighestIsPredecessor` | include/astra/utils/PriceBitmap.hpp:115-155 | the search returns the greatest set index at or below the argument, or the invalid value exactly when there is none, for any argument |
| `PriceBitmap.FindLowestIsSuccessor` | include/astra/utils/PriceBitmap.hpp:166-201 | the search returns the least set index at or above the argument, or the invalid value exactly when there is none |
| `PriceBitmap.FindHighestObserved` | include/astra/utils/PriceBitmap.hpp:46-155 | no predecessor search loads more than five words |
| `PriceBitmap.FindLowestObserved` | include/astra/utils/PriceBitmap.hpp:166-201 | no successor search loads more than five words |
| `PriceBitmap.PriceBitmap.SetInPlace` | include/astra/utils/PriceBitmap.hpp:50-74 | the three writes in place equal the value-level set and keep the represented set exact |
| `PriceBitmap.PriceBitmap.ResetInPlace` | include/astra/utils/PriceBitmap.hpp:51-93 | the one to three writes in place equal the value-level reset |
| `PriceBitmap.PriceBitmap.ApplyAll` | include/astra/utils/PriceBitmap.hpp:64-93 | after any sequence of sets and resets the bitmap holds what a plain set would hold |
| `PriceIndex.SplitJoin` | include/astra/book/PriceLevelStore.hpp:31-40 | splitting a price into page and level and joining them are inverse to each other |
| `PriceIndex.RootIndexInjective` | include/astra/book/PriceLevelStore.hpp:42-46 | different (locate, page) pairs have different root slots |
| `PriceIndex.ActivatedWf` | src/book/PriceLevelStore.cpp:395-437 | activating a level keeps the whole arena invariant, including the step from an empty bitmap at one level to an exact one at two |
| `PriceIndex.AdjustedWf` | src/book/PriceLevelStore.cpp:439-447 | changing the aggregate of an active level keeps the arena invariant |
| `PriceIndex.DeactivatedWf` | src/book/PriceLevelStore.cpp:685-715 | deactivating a level with a correct plan keeps the arena invariant, including the return to an empty bitmap and the replaced page and book bests |
| `PriceIndex.PageCommittedWf` | src/book/PriceLevelStore.cpp:262-301 | committing the next page keeps roots and owners inverse to each other on handles 1..committed |
| `PriceTraversal.CachedBestIsBest` | src/book/PriceLevelStore.cpp:786-796 | the cached book best is the best active price of the side, and is absent exactly when the side is empty |
| `PriceTraversal.NextOnPage` | src/book/PriceLevelStore.cpp:798-845 | the next set bit of a page with several levels is the next worse active price |
| `PriceTraversal.NextOnOtherPage` | src/book/PriceLevelStore.cpp:846-873 | past the last level of a page, the best level of the next active page is the next worse price |
| `PriceTraversal.NoNext` | src/book/PriceLevelStore.cpp:798-873 | when neither page nor book bitmap has a successor, no worse active price exists |
| `PriceTraversal.TopNext` | src/book/PriceLevelStore.cpp:895-915 | appending the next worse price to the best k prices gives the best k + 1 |
| `PriceTraversal.TopComplete` | src/book/PriceLevelStore.cpp:895-915 | a walk that found nothing worse has visited every active price exactly once |
| `PriceTraversal.TopUnique` | tests/book/OrderBookModelTest.cpp:149-168 | the best k prices in order are unique, so the fast view is the sorted reference view |
| `PriceLevelStore.PriceLevelStore.constructor` | src/book/PriceLevelStore.cpp:25-56 | a new store satisfies the arena invariant, has no prepared book and no level anywhere |
| `PriceLevelStore.PriceLevelStore.PrepareBook` | src/book/PriceLevelStore.cpp:179-188 | marks exactly one locate as prepared and counts each locate once |
| `PriceLevelStore.PriceLevelStore.ReservePrice` | src/book/PriceLevelStore.cpp:219-260 | gives the result its checks decide, and on success an address that is the existing page of the price or the next free handle |
| `PriceLevelStore.PriceLevelStore.CommitReservation` | src/book/PriceLevelStore.cpp:262-301 | accepts exactly the reservations that still fit, changes only the page directory, and leaves every level as it was |
| `PriceLevelStore.PriceLevelStore.Add` | src/book/PriceLevelStore.cpp:327-369 | decides as its validation does; on success exactly one level changes, on rejection nothing does |
| `PriceLevelStore.PriceLevelStore.AddValidated` | src/book/PriceLevelStore.cpp:439-447 | one more order of the given quantity, with activation when the level was empty |
| `PriceLevelStore.PriceLevelStore.ActivateLevel` | src/book/PriceLevelStore.cpp:395-437 | the in-place update of summaries, cached bests and bitmaps is the one the invariant proof needs |
| `PriceLevelStore.PriceLevelStore.ReduceChecked` | src/book/PriceLevelStore.cpp:486-522 | decides as its chain of checks does and lowers exactly one level by the reduction, or changes nothing |
| `PriceLevelStore.PriceLevelStore.ValidateDeactivation` | src/book/PriceLevelStore.cpp:524-683 | in every reachable state the plan is found, none of its consistency checks fails, and the plan names the true next page and book bests |
| `PriceLevelStore.PriceLevelStore.ValidateErase` | src/book/PriceLevelStore.cpp:371-393 | decides as its checks do and comes with a correct plan when the level's last order goes |
| `PriceLevelStore.PriceLevelStore.DeactivateLevel` | src/book/PriceLevelStore.cpp:685-715 | writes exactly the planned page and book summaries and bitmaps |
| `PriceLevelStore.PriceLevelStore.Erase` | src/book/PriceLevelStore.cpp:717-738 | takes one order out of exactly one level, or changes nothing |
| `PriceLevelStore.PriceLevelStore.Move` | src/book/PriceLevelStore.cpp:740-784 | decides everything before the first write: on success one order leaves one level and enters another, in place or across, on rejection nothing changed |
| `PriceLevelStore.PriceLevelStore.OwnsAddress` | src/book/PriceLevelStore.cpp:208-217 | true exactly for a committed page of that locate and page number |
| `PriceLevelStore.PriceLevelStore.PageHandle` | src/book/PriceLevelStore.cpp:196-206 | the root of a locate's page, whose owner always matches |
| `PriceLevelStore.PriceLevelStore.Best` | src/book/PriceLevelStore.cpp:786-796 | a cursor on the best active price, invalid exactly when there is none: no bid is higher, no ask lower |
| `PriceLevelStore.PriceLevelStore.NextWorse` | src/book/PriceLevelStore.cpp:798-873 | from any good cursor, the highest bid below it or the lowest ask above it, or none exactly when there is none; none from a cursor that is not on a page of the book |
| `PriceLevelStore.PriceLevelStore.ViewAt` | src/book/PriceLevelStore.cpp:875-893 | the aggregate of the price of a good cursor, and no view of any other cursor |
| `PriceLevelStore.PriceLevelStore.TopTen` | src/book/PriceLevelStore.cpp:895-915 | fills min(10, output size, active levels) entries with the best prices and their aggregates, bids falling and asks rising, unlisted prices beyond the last entry, and leaves the rest of the output alone |
| `PriceLevelStore.PriceLevelStore.WalkSide` | src/book/PriceLevelStore.cpp:786-873 | best followed by repeated nextWorse visits every active price exactly once, bids strictly falling and asks strictly rising |
| `OrderTable.StaleReservationSafe` | src/book/OrderTable.cpp:140-223 | a reservation from any earlier state whose slot is still untaken names a reference that is still unused |
| `OrderTable.IssuedCommits` | src/book/OrderTable.cpp:182-223 | a reservation issued earlier is refused only because its slot was taken meanwhile |
| `OrderTable.IssuedSeat` | src/book/OrderTable.cpp:140-180 | the issued slot is the first free one of the reference's candidates |
| `OrderTable.ExtendsTransitive` | src/book/OrderTable.cpp:182-239 | "what was taken is still taken by the same reference" is transitive, so that an earlier state may lie any number of operations back; commit, write and the two erasures state it for one operation |
| `OrderTable.CommitRepresents` | src/book/OrderTable.cpp:182-223 | filling a reserved slot adds one live record and one taken reference, and keeps the first-fit rule |
| `OrderTable.OrderTable.FindState` | include/astra/book/OrderTable.hpp:90-107 | finds a record exactly for live references, in the slot that holds it |
| `OrderTable.OrderTable.FindFallbackState` | include/astra/book/OrderTable.hpp:145-163 | the probe of the candidate buckets and ways finds exactly the live references beyond the direct slots |
| `OrderTable.OrderTable.Reserve` | src/book/OrderTable.cpp:140-180 | DuplicateOrderRef exactly for references ever accepted, CapacityExceeded exactly when every candidate slot is taken, otherwise the first free candidate |
| `OrderTable.OrderTable.Commit` | src/book/OrderTable.cpp:182-223 | a record that fails a check is refused and changes nothing; one issued by reserve, in this or any earlier state, fills its slot and adds its reference while the slot is untaken |
| `OrderTable.OrderTable.Write` | include/astra/book/OrderTable.hpp:90-107 | an update through the found record changes that order alone |
| `OrderTable.OrderTable.EraseSlot` | src/book/OrderTable.cpp:225-235 | removes one live order; its reference stays taken |
| `OrderTable.OrderTable.Erase` | src/book/OrderTable.cpp:237-239 | removes the order of a reference, or reports that there is none; the reference stays taken |
| `ReferenceBook.InsertAggregates` | tests/book/OrderBookModelTest.cpp:40-43 | a new order raises sum and count of its own (locate, side, price) and of no other |
| `ReferenceBook.RemoveAggregates` | tests/book/OrderBookModelTest.cpp:40-43 | a removed order lowers sum and count of its own key and of no other |
| `ReferenceBook.UpdateAggregates` | tests/book/OrderBookModelTest.cpp:149-168 | a changed quantity moves the sum of its key by the difference and no count |
| `ReferenceBook.LevelBounds` | src/book/PriceLevelStore.cpp:348-369 | a level's sum is at most its count times 2^32 - 1, and zero exactly when the count is |
| `ReferenceBook.LeaksExactly` | src/book/OrderBook.cpp:344-398 | a replacement is refused and yet takes its new reference exactly when nothing but a full destination at another price stands against it; every other refusal leaves the books as they were |
| `BookLaws.AddTaken` | src/book/OrderBook.cpp:149-207 | an addition is taken exactly when its side is B or S, its quantity positive, its price at most 2,000,000,000, its reference new and there is room; a refused one changes nothing |
| `BookLaws.AddRefused` | src/book/OrderBook.cpp:149-207 | which of several reasons an addition is refused for |
| `BookLaws.AddMeans` | src/book/OrderBook.cpp:91-97 | a 'B' is a live buy, an 'S' a live sell with the given price and quantity; sum and count of that level alone rise by the quantity and one |
| `BookLaws.CancelMeans` | src/book/OrderBook.cpp:209-249 | a cancellation is taken exactly when it leaves some of a live order of the book; the sum of its level alone falls by the quantity |
| `BookLaws.DeleteMeans` | src/book/OrderBook.cpp:251-272 | a deletion is taken exactly for a live order of the book; its level alone loses its quantity and one order |
| `BookLaws.ExecuteMeans` | src/book/OrderBook.cpp:274-325 | an execution is taken up to the whole order; its level alone loses the shares, and one order exactly when nothing is left |
| `BookLaws.ReplaceMeans` | src/book/OrderBook.cpp:327-413 | an accepted replacement keeps book and side, takes the new price and quantity, and moves the sums from the old level to the new one; a refused one changes no order |
| `BookLaws.MutationRefused` | src/book/OrderBook.cpp:131-147 | which of several reasons a cancellation, execution or deletion is refused for |
| `ShareLedger.SharesConserved` | src/book/BookManager.cpp:333-379 | on every run, shares in the books plus executed, cancelled and withdrawn ones equal those at the start plus those entered |
| `BookInvariant.LiveLevel` | src/book/PriceLevelStore.cpp:371-393 | the level of every live order passes each check of erase and reduceChecked |
| `BookInvariant.RoomForQuantity` | src/book/PriceLevelStore.cpp:348-369 | below the maximal order count no further order can overflow the 64-bit sum |
| `BookInvariant.InsertKeeps` | src/book/OrderBook.cpp:149-207 | adding an order and its level quantity keeps table and levels consistent |
| `BookInvariant.RemoveKeeps` | src/book/OrderBook.cpp:251-326 | removing an order and its level quantity keeps them consistent |
| `BookInvariant.ReduceKeeps` | src/book/OrderBook.cpp:209-249 | reducing an order and its level keeps them consistent |
| `BookInvariant.MoveKeeps` | src/book/OrderBook.cpp:327-413 | replacing an order and moving its quantity keeps them consistent |
| `BookInvariant.PricesAreReference` | tests/book/OrderBookModelTest.cpp:149-168 | the active prices of a side are the prices of its live orders |
| `BookInvariant.PagesAreRoots` | src/book/PriceLevelStore.cpp:219-260 | a page is in use exactly when it has a root, and the committed handles count the pages in use |
| `OrderBook.MoveCrowded` | src/book/PriceLevelStore.cpp:740-784 | for a live order, move is refused exactly when it goes to another price whose order count is at its maximum |
| `OrderBook.OrderBook.Lookup` | src/book/OrderBook.cpp:131-147 | finds the order exactly as the simple book does, and its record always passes validateState |
| `OrderBook.OrderBook.AddOrder` | src/book/OrderBook.cpp:149-207 | result and books are exactly those of the simple books, each refusal for want of room included; an accepted 'B' is a live buy and an accepted 'S' a live sell whose level alone gains its shares and one order, any other side character is refused; a rejection changes no order, no byte of the price arena, no taken reference and no timestamp |
| `OrderBook.OrderBook.CancelShares` | src/book/OrderBook.cpp:209-249 | result and books are exactly those of the simple books; a rejection changes nothing |
| `OrderBook.OrderBook.DeleteOrder` | src/book/OrderBook.cpp:251-272 | result and books are exactly those of the simple books; a rejection changes nothing |
| `OrderBook.OrderBook.ExecuteOrder` | src/book/OrderBook.cpp:274-326 | result and books are exactly those of the simple books on partial and full executions; a rejection changes nothing |
| `OrderBook.OrderBook.ReplaceOrder` | src/book/OrderBook.cpp:327-413 | result and books are exactly those of the simple books, each refusal for want of room included; a rejection leaves orders and price arena as they were, and takes the new reference exactly under the stated condition |
| `OrderBook.OrderBook.GetTopOfBook` | src/book/OrderBook.cpp:415-438 | bid and ask are prices of live orders with their sums; no live buy of the book is above the bid and no live sell below the ask |
| `OrderBook.OrderBook.GetBookUpdate` | src/book/OrderBook.cpp:440-460 | bids strictly fall and asks strictly rise, with sums and counts; a live order whose price is not listed is beyond the tenth entry of its side |
| `OrderBook.BestOfOrders` | src/book/OrderBook.cpp:415-438 | the shown best price is that of a live order, and no live order of the side has a better one, in numbers |
| `OrderBook.TopOfOrders` | src/book/OrderBook.cpp:440-460 | every live order's price is listed or lies beyond the tenth entry, in numbers |
| `BookManager.BookManager.GetOrCreate` | src/book/BookManager.cpp:312-331 | creates and prepares the book of every nonzero locate once and changes no order |
| `BookManager.BookManager.AddOrder` | src/book/BookManager.cpp:333-341 | routes to the book, or reports that it was never created exactly then; result and books are those of the simple books and all other books keep their counts |
| `BookManager.BookManager.CancelShares` | src/book/BookManager.cpp:343-350 | as AddOrder, for cancels |
| `BookManager.BookManager.DeleteOrder` | src/book/BookManager.cpp:352-359 | as AddOrder, for deletes |
| `BookManager.BookManager.ExecuteOrder` | src/book/BookManager.cpp:361-368 | as AddOrder, for executions |
| `BookManager.BookManager.ReplaceOrder` | src/book/BookManager.cpp:370-379 | as AddOrder, for replacements |
| `BookManager.BookManager.TotalLiveOrderCount` | src/book/BookManager.cpp:386-394 | the sum of the per-book counters is the number of live orders |
| `BookManager.BookManager.AuditDirectory` | src/book/BookManager.cpp:396-425 | the audit is clean exactly when the registered locates are those with a prepared book |
| `BookManager.EmptyWorld` | src/book/BookManager.cpp:386-394 | without live orders every counter is zero and no level is active on either side |
| `BookRuns.Apply` | src/book/BookManager.cpp:312-379 | one mutation with any arguments gives exactly the answer and the state of the simple books, BookNotPrepared exactly for locates without a book |
| `BookRuns.ApplyAll` | src/book/OrderBook.cpp:111-413 | every run gives exactly the answers and the state of the simple books, no defensive result and no condemned book, and leaves exact levels and counters |
| `BookRuns.NeverAcceptedTwice` | src/book/OrderTable.cpp:140-180 | on no run is a reference accepted twice, not even after its order is gone |
| `BookRuns.RunIsClean` | src/book/OrderBook.cpp:111-129 | no run of the simple books contains a defensive result |
| `BookRuns.LeakRun` | src/book/OrderBook.cpp:388-398 | a run from a new manager that ends in a refused replacement which takes its reference |
| `ItchWire.ExpectedLength` | include/astra/protocol/ItchMessageLength.hpp:9-35 | the exact length of every ITCH 5.0 type; none is below 12 or above 50 bytes |
| `ItchWire.ReadWrite` | src/replay/itch/ItchMoldUdpSource.cpp:13-23 | a field reads as a value exactly when it holds the bytes written for it |
| `ItchWire.MostSignificantFirst` | src/parser/ItchParser.cpp:50-78 | the value of a field is its first byte times the highest power plus the value of the rest |
| `ItchWire.WrittenDigits` | src/replay/itch/ItchMoldUdpSource.cpp:13-23 | byte i of an n-byte field is the digit of weight 256^(n-1-i) |
| `ItchWire.FieldValues` | src/parser/ItchParser.cpp:50-78 | fields of two, four, six and eight bytes as sums over their bytes |
| `ItchReference.StepKeeps` | src/parser/ItchParser.cpp:106-186 | every message, accepted or refused, keeps the daily events in their one order, tickers and locates one to one, and live orders on registered locates |
| `ItchReference.ReplayKeeps` | src/parser/ItchParser.cpp:360-438 | the same after every accepted feed |
| `ItchReference.EndOfDay` | src/parser/ItchParser.cpp:382-389 | a feed that reached the end of messages carried the events O, S, Q, M, E, C, each once and in order, and left no live order |
| `ItchReference.NothingAfterEnd` | src/parser/ItchParser.cpp:125-127 | no message is accepted after the end of messages |
| `ItchReference.AmpleRoom` | src/book/BookManager.cpp:333-379 | for a feed whose references have direct slots and which has no more messages than there are pages, the sizes do not matter: any two such choices accept the same feeds and give the same day |
| `ItchReference.NeverForRoom` | src/book/BookManager.cpp:333-379 | with such sizes no message that follows an accepted part of the feed is refused for want of an order slot, a price page or room in a level |
| `ItchPrinter.Layout` | src/parser/ItchParser.cpp:190-359 | the byte range of every field of the nine message types, and their lengths |
| `ItchPrinter.ParsePrint` | src/parser/ItchParser.cpp:190-359 | reading a printed message gives back its fields |
| `ItchPrinter.PrintParse` | src/parser/ItchParser.cpp:190-359 | every message of these types is a printed one |
| `ItchLaws.AddDoes` | src/parser/ItchParser.cpp:201-219 | an add is accepted exactly in hours, for the registered and matching stock, with valid fields, a new reference and room; then its order is live with its own fields and nothing else changes |
| `ItchLaws.ExecutedDoes` | src/parser/ItchParser.cpp:227-249 | an execution takes its shares from the order it names, exactly under the stated conditions; with a price it must be at most 2,000,000,000 |
| `ItchLaws.CancelDoes` | src/parser/ItchParser.cpp:254-262 | a cancel takes its shares from an order that keeps some, also after event E |
| `ItchLaws.DeleteDoes` | src/parser/ItchParser.cpp:266-271 | a delete removes the order it names, also after event E |
| `ItchLaws.ReplaceDoes` | src/parser/ItchParser.cpp:278-293 | a replacement puts the new reference, price and shares in the place of the old order on its side, exactly under the stated conditions; a refused one changes no order |
| `ItchLaws.DirectoryDoes` | src/parser/ItchParser.cpp:312-353 | a directory message gives its locate the trimmed ticker, exactly when neither is bound otherwise |
| `ItchLaws.EventDoes` | src/parser/ItchParser.cpp:360-395 | a system event is accepted exactly as the next of O, S, Q, M, E, C, the last without live orders, or as an emergency code without effect |
| `ItchLaws.OtherDoes` | src/parser/ItchParser.cpp:163-187 | any other message leaves directory, books and events alone |
| `StockDirectory.StockDirectory.Set` | include/astra/symbol/StockDirectory.hpp:25-56 | registers or refreshes exactly when the locate is nonzero, the ticker nonempty and neither is bound otherwise; stores the canonical entry with all its metadata there and nowhere else; identities never change and an index slot is always found |
| `StockDirectory.StockDirectory.Get` | include/astra/symbol/StockDirectory.hpp:58-62 | the stored entry of exactly the registered locates, with the registered ticker |
| `StockDirectory.StockDirectory.LocateForTicker` | include/astra/symbol/StockDirectory.hpp:74-87 | the locate that Get maps to the ticker, or the invalid one exactly when there is none |
| `StockDirectory.StockDirectory.EmptyReverseSlot` | include/astra/symbol/StockDirectory.hpp:132-140 | always finds a free slot on the ticker's probe path, for the table is at most half full |
| `ItchParser.Gate` | src/parser/ItchParser.cpp:106-136 | lets a message through exactly when its time is within the day and the phase permits it, and names the reason otherwise |
| `ItchParser.ItchParser.Dispatch` | src/parser/ItchParser.cpp:106-186 | the day is exactly that of the reference step; an error exactly on a refusal, with the result of the books exactly when they refused |
| `ItchParser.ItchParser.HandleMessage` | src/parser/ItchParser.cpp:80-95 | the same for arbitrary bytes: malformed messages are refused without effect |
| `ItchParser.ItchParser.HandlePrevalidatedMessage` | src/parser/ItchParser.cpp:97-103 | the same for messages whose framing the decoder has checked |
| `ItchParser.ItchParser.HandleAdd` | src/parser/ItchParser.cpp:201-219 | an add needs a registered locate whose padded ticker is on the wire; accepted, it is live with the reference at byte 11, the side at 19, the shares at 20 and the price at 32, and stamps the book with its time |
| `ItchParser.ItchParser.HandleOrderExecutedWithPrice` | src/parser/ItchParser.cpp:232-238 | an execution with price is refused for an invalid price and otherwise an execution |
| `ItchParser.ItchParser.ApplyExecution` | src/parser/ItchParser.cpp:240-249 | an execution reaches the book of its locate with the wire's reference and shares |
| `ItchParser.ItchParser.HandleCancel` | src/parser/ItchParser.cpp:254-262 | likewise for cancels |
| `ItchParser.ItchParser.HandleDelete` | src/parser/ItchParser.cpp:266-271 | likewise for deletes |
| `ItchParser.ItchParser.HandleReplace` | src/parser/ItchParser.cpp:278-293 | a replacement needs a new reference; accepted, the order with the reference at byte 19, the shares at 27 and the price at 31 is live in the place of the one named at byte 11, on its side |
| `ItchParser.ItchParser.HandleStockDirectory` | src/parser/ItchParser.cpp:312-353 | registers a consistent identity with the category, status, lot and test fields of the message, and gives it a book once books exist |
| `ItchParser.ItchParser.HandleSystemEvent` | src/parser/ItchParser.cpp:360-395 | accepts the daily events in their order and the three emergency codes without effect |
| `ItchParser.ItchParser.HandleDailyEvent` | src/parser/ItchParser.cpp:364-389 | advances the phase, and to the end of messages only without live orders |
| `ItchParser.ItchParser.HandleSystemHoursStart` | src/parser/ItchParser.cpp:397-406 | at event S every registered locate gets its book |
| `ItchParser.ItchParser.CreateRegisteredBooks` | src/parser/ItchParser.cpp:447-468 | after the loop exactly the registered locates have a book, and it never fails |
| `ItchParser.ItchParser.AdvancePhase` | src/parser/ItchParser.cpp:408-438 | moves on exactly along the permitted edges |
| `ItchParser.ItchParser.Audit` | src/book/BookManager.cpp:396-425 | after every message the audit is clean exactly when books exist or nothing is registered, so always from event S on |
| `GapBuffer.GapBuffer.Insert` | include/astra/sequencing/GapBuffer.hpp:37-68 | inserts, recognises identical and conflicting duplicates and a full table exactly as a map with a size limit would |
| `GapBuffer.GapBuffer.Find` | include/astra/sequencing/GapBuffer.hpp:70-80 | map lookup |
| `GapBuffer.GapBuffer.Erase` | include/astra/sequencing/GapBuffer.hpp:82-93 | map removal, also of an absent key |
| `GapBuffer.GapBuffer.EraseAt` | include/astra/sequencing/GapBuffer.hpp:165-184 | the backward shift removes one entry and keeps every other one findable, on full and wrapped tables too; the table it leaves is that of the value-level shift |
| `GapBuffer.ShiftMove` | include/astra/sequencing/GapBuffer.hpp:165-184 | moving an entry into the gap keeps all probe paths occupied behind the new gap |
| `GapBuffer.ShiftEnd` | include/astra/sequencing/GapBuffer.hpp:165-184 | when the shift ends, freeing the last gap interrupts no probe path |
| `GapBuffer.FullMeansAllUsed` | include/astra/sequencing/GapBuffer.hpp:100-101 | the stored size is the number of entries and equals the capacity exactly on a full table |
| `GapBuffer.PathsUsedIsNotEnough` | include/astra/sequencing/GapBuffer.hpp:165-184 | a full ring in which every probe path is occupied and the shift loses an entry |
| `MoldWire.UnframeIsInverse` | src/codec/MoldUdpDecoder.cpp:370-394 | reading length-prefixed blocks succeeds with a list of messages exactly on the bytes that carry it |
| `MoldWire.FewMessages` | src/codec/MoldUdpDecoder.cpp:14-18 | a valid packet of n messages has at least 20 + 14 n bytes |
| `MoldWire.DatagramRoundTrip` | src/codec/MoldUdpDecoder.cpp:52-62 | session, sequence number, count and messages put into a datagram are read back |
| `MoldWire.HeaderBytes` | src/replay/itch/ItchMoldUdpSource.cpp:13-23 | the written header byte by byte, most significant first |
| `MoldWire.HeaderValues` | src/codec/MoldUdpDecoder.cpp:52-62 | sequence number and count as sums over the header bytes |
| `MoldWire.FirstDefect` | src/codec/MoldUdpDecoder.cpp:370-394 | the status of a malformed packet is that of its first defect: a wrong size for a missing, empty or overlong block and for bytes left over, a wrong message otherwise |
| `SequencingRuns.SearchIsExhaustive` | src/codec/MoldUdpDecoder.cpp:407-428 | when the search of at most 144 starts finds nothing, no stored packet covers the next message |
| `SequencingRuns.DrainEnds` | src/codec/MoldUdpDecoder.cpp:396-451 | the drain ends, only delivers and removes, and on success nothing stored covers the next message |
| `SequencingRuns.RunBetween` | src/codec/MoldUdpDecoder.cpp:64-286 | between any two datagrams of any run, unless stale or terminal, health is good exactly when the buffer is empty and no watermark is outstanding |
| `SequencingRuns.TerminalIsForever` | src/codec/MoldUdpDecoder.cpp:64-66 | a terminal status is answered to every later datagram and nothing changes |
| `SequencingRuns.StaleIsForever` | src/codec/MoldUdpDecoder.cpp:201-228 | a channel that lost data for want of room stays stale or fails; it never accepts the end |
| `SequencingRuns.EndOfStreamIsComplete` | src/codec/MoldUdpDecoder.cpp:94-137 | the end is accepted only at an advertised end, with empty buffer and no watermark, after the six daily events in order and without live orders |
| `SequencingRuns.HistoryGrows` | src/codec/MoldUdpDecoder.cpp:230-242 | what was delivered stays delivered |
| `SequencingRuns.DeliveredExactlyOnce` | src/codec/MoldUdpDecoder.cpp:169-242 | under any loss, repetition, reordering and packetization the parser has seen exactly the stream from the initial number up to next, and after a failure still a contiguous run |
| `SequencingRuns.PlayableIsNeverRefused` | src/codec/MoldUdpDecoder.cpp:338-355 | a stream the reference accepts, with room for its orders, is never refused, however its well-formed packets arrive |
| `Sequencing.TakenIs` | src/codec/MoldUdpDecoder.cpp:338-355 | the parser takes exactly the messages up to the first one that does not continue an accepted feed |
| `LineMerge.MergeIsConfluent` | src/codec/MoldUdpDecoder.cpp:178-279 | with one packetization, next is the first packet not arrived, the buffer holds exactly the arrivals beyond it, the parser saw exactly the packets before it, and the session is judged exactly when all of it and its marker came; BooksFollowPackets adds the books |
| `LineMerge.OrderDoesNotMatter` | src/codec/MoldUdpDecoder.cpp:178-279 | two runs with the same arrivals in any orders end with the same next, buffer, delivered messages and terminal status |
| `LineMerge.SessionCompletes` | src/codec/MoldUdpDecoder.cpp:288-306 | a whole day reaches its accepted end exactly when every packet and a marker arrived, on time or ahead of a gap |
| `LineMerge.TiledDrain` | src/codec/MoldUdpDecoder.cpp:396-451 | draining a tiled session delivers exactly up to the first missing packet |
| `AnyPackets.NextIsFirstMissing` | src/codec/MoldUdpDecoder.cpp:178-279 | under any packetization, on every run that has not failed, ended or lost data, next is the first number that no arrived packet holds |
| `AnyPackets.AnyPacketsAgree` | src/codec/MoldUdpDecoder.cpp:178-279 | two such runs with the same arrivals in any orders wait for the same number and have delivered the same messages, even with different room for gaps and orders |
| `AnyPackets.DrainConsumes` | src/codec/MoldUdpDecoder.cpp:396-451 | a successful drain removes only packets that are over and moves next only across numbers that stored packets hold |
| `ChannelLaws.GoodExactly` | src/codec/MoldUdpDecoder.cpp:139-166 | on every run that has not failed, ended or lost data, the channel is good exactly when nothing is stored and next has reached every number announced by a heartbeat or end marker |
| `ChannelLaws.GoodIsComplete` | src/codec/MoldUdpDecoder.cpp:244-279 | a good channel has delivered everything announced and every message of every packet that arrived |
| `ChannelLaws.GapFlag` | src/codec/MoldUdpDecoder.cpp:64-279 | a gap is reported exactly for a datagram of any kind ahead of next, and for a packet delivered while a gap is open |
| `ChannelLaws.HeartbeatAhead` | src/codec/MoldUdpDecoder.cpp:146-154 | a heartbeat of the session ahead of next is answered with a gap and leaves the channel not good |
| `ChannelLaws.HealthAfter` | src/codec/MoldUdpDecoder.cpp:178-279 | ahead of next a gap is detected; after a delivery the channel is good or recovering |
| `ChannelLaws.EndsAgree` | src/codec/MoldUdpDecoder.cpp:94-137 | while a channel waits for its end, all end markers so far name one end, which is not passed and beyond which nothing was announced |
| `ChannelLaws.BeyondEndFails` | src/codec/MoldUdpDecoder.cpp:94-184 | once the end is known, a packet beyond it, a heartbeat beyond it and another end fail the session as out of sequence |
| `ChannelLaws.OneSession` | src/codec/MoldUdpDecoder.cpp:75-92 | a run that has not failed has seen one session and no malformed datagram |
| `ChannelLaws.OtherSessionFails` | src/codec/MoldUdpDecoder.cpp:84-92 | a datagram of another session fails it with the session status |
| `ChannelLaws.ShortIgnored` | src/codec/MoldUdpDecoder.cpp:68-71 | datagrams shorter than a header leave no trace on any run |
| `ChannelLaws.OldIgnored` | src/codec/MoldUdpDecoder.cpp:178-188 | a packet that comes again after its delivery changes nothing |
| `Leftovers.RunSkims` | src/codec/MoldUdpDecoder.cpp:396-451 | on every run that is not over, a packet stored at or below next is more than 144 behind it |
| `Leftovers.SkippedExactly` | src/codec/MoldUdpDecoder.cpp:399-428 | of the packets that start at or below next, a drain leaves exactly those for which the packets above hold every number from next to their start plus 144 |
| `Leftovers.LeftoverIsForever` | src/codec/MoldUdpDecoder.cpp:94-137 | on any run, a packet left at or below next stays stored whatever arrives, and the end of the session is never accepted |
| `Leftovers.StuckRun` | src/codec/MoldUdpDecoder.cpp:399-428 | the run that leaves such a packet: all 146 messages of a day are delivered and the packet with message 2 alone is still stored |
| `Leftovers.StuckForGood` | src/codec/MoldUdpDecoder.cpp:125-129 | from there the correct end marker fails the session, and no continuation ends it |
| `Leftovers.QuietDayAccepted` | src/parser/ItchParser.cpp:360-395 | such a day exists: 146 messages of 12 bytes that the parser takes to the end of messages, for any sizes |
| `Leftovers.InOrderCloses` | src/codec/MoldUdpDecoder.cpp:94-137 | the same datagrams and marker in sending order end the session |
| `MoldUdpDecoder.ValidateSequencedPacket` | src/codec/MoldUdpDecoder.cpp:370-394 | accepts exactly the bytes that carry that many complete ITCH messages, and gives the status of the first defect |
| `MoldUdpDecoder.MoldUdpDecoder.ProcessSequencedPacket` | src/codec/MoldUdpDecoder.cpp:317-368 | hands over the unseen messages in order and stops at the first one that does not continue an accepted feed |
| `MoldUdpDecoder.MoldUdpDecoder.FindCandidate` | src/codec/MoldUdpDecoder.cpp:407-428 | the nearest buffered start at or at most 144 below next |
| `MoldUdpDecoder.MoldUdpDecoder.DrainGapBuffer` | src/codec/MoldUdpDecoder.cpp:396-451 | the loop equals the drain of the channel and ends because every round removes a packet |
| `MoldUdpDecoder.MoldUdpDecoder.ProcessEndMarker` | src/codec/MoldUdpDecoder.cpp:94-137 | an end marker fails, waits or ends the session as the channel prescribes |
| `MoldUdpDecoder.MoldUdpDecoder.ProcessHeartbeat` | src/codec/MoldUdpDecoder.cpp:139-166 | a heartbeat raises or clears the watermark as the channel prescribes; one ahead of next raises it to at least its number, reports a gap and leaves the channel not good |
| `MoldUdpDecoder.MoldUdpDecoder.ProcessAhead` | src/codec/MoldUdpDecoder.cpp:190-228 | a packet behind a gap is buffered, recognised, refused as conflicting, or makes the channel stale |
| `MoldUdpDecoder.MoldUdpDecoder.ProcessInOrder` | src/codec/MoldUdpDecoder.cpp:230-279 | a packet without a gap is delivered, the buffer drained, health settled and a pending end judged |
| `MoldUdpDecoder.MoldUdpDecoder.ResolvePendingEndOfStream` | src/codec/MoldUdpDecoder.cpp:288-306 | a pending end is accepted, refused or kept as the channel prescribes |
| `MoldUdpDecoder.MoldUdpDecoder.TerminalFailure` | src/codec/MoldUdpDecoder.cpp:281-286 | records the status and invalidates the channel, nothing else |
| `MoldUdpDecoder.MoldUdpDecoder.ProcessPacket` | src/codec/MoldUdpDecoder.cpp:64-279 | one datagram of any bytes moves the object exactly as the channel step; a gap is reported exactly for a datagram ahead of next and for one that narrows a gap, so a heartbeat ahead is never passed over |
| `MoldUdpDecoder.MoldUdpDecoder.ProcessAll` | src/codec/MoldUdpDecoder.cpp:64-279 | a run of datagrams equals the run of the channel, so all statements about runs hold of the object |
| `MoldUdpDecoder.BooksFollowStream` | src/codec/MoldUdpDecoder.cpp:230-242 | the directory, phase and books of a decoder are those of the stream replayed in order up to next |
| `MoldUdpDecoder.BooksFollowPackets` | src/codec/MoldUdpDecoder.cpp:178-279 | with one packetization they are those of delivering in order the packets before the first one that has not arrived |
| `MoldUdpDecoder.SameArrivalsSameBooks` | src/codec/MoldUdpDecoder.cpp:178-279 | two decoders that received the same packets in different orders hold the same books |
| `MoldUdpDecoder.AnyPacketsSameBooks` | src/codec/MoldUdpDecoder.cpp:178-279 | two decoders that received the same datagrams of one stream, cut into any overlapping packets and in any orders, hold the same directory, phase and books unless one has failed, ended or lost data |
| `MoldUdpDecoder.EndIsComplete` | src/codec/MoldUdpDecoder.cpp:94-137 | an accepted end was advertised and closes a day with all six events and no live order |
| `MoldUdpDecoder.MoldUdpDecoder.EndLeavesBooksEmpty` | src/codec/MoldUdpDecoder.cpp:288-306 | an accepted end leaves the events complete, every order counter zero and every level inactive |
| `ItchMoldUdpSource.CompletesIffWellFormed` | src/replay/itch/ItchMoldUdpSource.cpp:61-193 | a file is read to a good end exactly when it is a day from O to its only C, with zero locates on system events, followed by the terminator or, if allowed, by nothing |
| `ItchMoldUdpSource.CheckRecord` | src/replay/itch/ItchMoldUdpSource.cpp:137-173 | a record passes exactly when type and length fit, a system event has locate zero and the first record is event O |
| `ItchMoldUdpSource.ItchMoldUdpSource.constructor` | src/replay/itch/ItchMoldUdpSource.cpp:27-46 | an oversized session or a zero packet size is an error from the start; the session is padded to ten bytes |
| `ItchMoldUdpSource.ItchMoldUdpSource.Next` | src/replay/itch/ItchMoldUdpSource.cpp:48-205 | emits the datagram of the next one to 103 records, at most 1472 bytes, under the next sequence number, or nothing exactly at the end; a packet ends only at its message limit, behind event S or Q, at the end of the input or before a record that does not fit |
| `ItchMoldUdpSource.ItchMoldUdpSource.Fill` | src/replay/itch/ItchMoldUdpSource.cpp:61-193 | the packet body is the blocks of consecutive records, within the packet size, nothing behind an S or Q event, and it stops for no other reason than those |
| `ItchMoldUdpSource.ItchMoldUdpSource.SetMessagesPerPacket` | src/replay/itch/ItchMoldUdpSource.cpp:213-219 | accepts every nonzero size at any time |
| `RoundTrip.EmitAll` | src/replay/itch/ItchMoldUdpSource.cpp:48-219 | for every file and every choice of sizes the packets tile the sequence numbers from 1 and hold the file's records in order, and completion is that of the file |
| `RoundTrip.CleanRun` | src/codec/MoldUdpDecoder.cpp:230-279 | packets in order are delivered one by one, never buffered, and leave a good channel |
| `RoundTrip.PacketizeThenDecode` | src/codec/MoldUdpDecoder.cpp:317-394 | for every well-formed BinaryFILE, with terminator or legacy end, the emitted packets bring exactly its records to the parser, in order |
| `RoundTrip.ReplayFile` | src/replay/itch/ItchMoldUdpSource.cpp:48-205 | from source object to decoder object: whatever the packet sizes, the day the parser ends with is the replay of the file's records |
| `Sha256.FoldAppend` | src/utils/Sha256.cpp:101-129 | compressing two block sequences after each other is compressing their concatenation |
| `Sha256.PaddingTail` | src/utils/Sha256.cpp:140-153 | the padding of section 5.1.1 of FIPS 180-4 touches only the last, incomplete block |
| `Sha256.LastBlocks` | src/utils/Sha256.cpp:140-148 | the one or two final blocks are the rest, 0x80, zeros and the 64-bit length |
| `Sha256.PaddedBytes` | src/utils/Sha256.cpp:140-148 | the padded message byte by byte: 0x80, zeros, the bit length most significant byte first, in the fewest blocks |
| `Sha256.DigestBytes` | src/utils/Sha256.cpp:155-160 | the digest is the words in order, most significant byte first |
| `Sha256.Sha256.Update` | src/utils/Sha256.cpp:101-129 | refuses input after finalize or beyond a 64-bit bit length; otherwise state and buffer are those of the concatenated input |
| `Sha256.Sha256.Finalize` | src/utils/Sha256.cpp:136-163 | the digest of the padded concatenated input; a second call returns the same digest |
| `Sha256.HashParts` | src/utils/Sha256.cpp:101-163 | however the input is split over calls, the digest is that of the whole |

## Left out

- The parser's boolean reply and its skipped-message flag: no state depends on them.
- Packet sources, DPDK and UDP receivers and senders, affinity, clocks and prefaulting: input and
  output; datagrams and files are byte sequences here.
- Latency fields, rdtsc stamps, stage timing and console reporting; the two counters of redundant
  packets and the page-capacity-failure counter are statistics no decision reads.
- The engine's main loop and the applications' command lines, pacing and sender hand-off.
- The hash mixers, the ticker hash and the SHA-256 round function: they are parameters, and nothing
  proved depends on their values.
- Capacity profiles, storage footprints and memory mapping: arrays simply start zeroed.
- `PriceLevelStore::reduce`: no book calls it; `reduceChecked` is the operation the books use.
- The stand-alone order book with stores of its own, and descriptors for locate zero or for a locate
  that was never prepared: the book manager, through which the parser works, creates neither.
- Accessors that hand out mutable internals, and the states tests reach by corrupting them.
- The books' error texts: a parser error caused by a book carries the operation and the result code
  instead of the formatted text.
- A packet without data: it is an empty datagram here.
- OrderTable.OrderTable.Commit: a made-up record that passes every check of commit although reserve
  never issued it is excluded; only reserve makes such records in the program.
- PriceLevelStore.PriceLevelStore.NextWorse: says nothing about a cursor on a page of the book whose
  own level is no longer active; the program walks within one call and never holds such a cursor.
- PriceBitmap.FindHighestObserved: a word is a sequence of 64 bits, not a machine integer, so the
  shifts and zero counts are modelled by what they do to bits.
- RoundTrip.EmitAll: sequence numbers do not wrap, because a file has at most 2^64 - 1 bytes.
- ItchParser.ItchParser.HandleStockDirectory: the phase change for a directory message before the
  first event is not modelled; the phase gate admits no such message.
- MoldUdpDecoder.MoldUdpDecoder.ProcessPacket: the reply carries status and gap flag, not the
  latency sums.
