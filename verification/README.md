# A verified model of the reconciling order book

This project models, in Dafny, a limit order book that is driven by three unsynchronised
feeds (single orders, trades and L2 snapshots) and proves how the feeds are reconciled. It
also models four algorithms of the vendored test framework: maximum bipartite matching, test
name filters, the simple regular expression engine, and expectation prerequisites.

`dafny verify dfyconfig.toml` checks everything.

## The order book

What a side of the book means is one list of resting orders in price-time order, with the
debts (`pendingRemove`: liquidity already gone whose trade or cancellation is still due), the
expectations (`pendingAdd`: liquidity already traded or shown whose order is still due) and
the queue of expected snapshots. `SideModel`, `SnapshotModel` and `BookModel` say as functions
what every message does to that meaning. The classes of `Level`, `BookSides` and `OrderBook`
hold what the program holds (a map of levels with cached totals, an index by order id, the
pending maps) and change it in place with the program's loops; each method is proved to do to
the meaning what its function says, and to keep levels, caches and index in agreement with
the list.

What the functions promise is proved on top: independent descriptions, conservation laws,
invariants, and exact conditions.

- `Cancellations`, `Additions`, `Modifications`, `Trades`, `Resyncs`: each message described by
  what it leaves of every queue, price and event, without the functions that compute it; the
  functions are proved to have that outcome and no other. `Determined` says what determines a
  side: its queues, its quantities price by price, and the levels its views show.
- `Greedy`: the matcher is exactly greedy price-time matching; additions and trades conserve
  quantity.
- `PendingAddTheorems`: when the loop over expectations comes back, and with what.
- `Reconciliation`, `PartialFills`, `Confluence`, `Interleaving`: an order arriving before,
  among or after its trades.
- `SnapshotTheorems`, `Runs`, `ExpectedViews`: snapshots before, after and between orders.
- `Invariants`, `Runs`: whole runs never cross the book.
- `Priority`: what modification and cancellation do to time priority.
- `Witnesses`: messages from the empty book to each of the failures below.

Where the code falls short of what one would expect of it, the code is modelled as it is, and
the exact condition under which it does meet the expectation is proved:

- `src/book_side.cpp:261` erases the order's price and not the key of the entry it drained.
  If the order's price is strictly better, an entry of zero stays in front and the loop can
  repeat for ever. The model has both the loop as written (`AsWritten`) and one that erases
  the drained key (`Repaired`, which is not in the program). `ReturnsExactly` says when the
  former ends, `AgreesExactly` when both do the same, `InterleavedExactly` what follows for
  the feeds. The methods for new and modified orders are stated for messages on which the
  loop as written ends; everything about whole runs is stated for the loop as written, the
  interleaving and conservation for both.
- A snapshot makes up orders with ids from 100 on (`src/book_side.cpp:181`), and an id that is
  already taken is silently ignored: `ResyncExact`.
- Views are queued before exhausted orders are erased (`src/book_side.cpp:74-75`), so a
  drained level is queued with quantity zero, no snapshot ever equals that view, and the side
  stops following snapshots: `ViewsExactly`, `FollowsAgainExactly`, `DrainedNeverFollows`,
  `CrossFollowsExactly`, `TradeFollowsExactly`.
- If only one side has views queued, an uncrossed snapshot can cross the book:
  `SnapshotUncrossedExactly`, `OneSideFollows`.
- A modification cancels at the new price (`src/order_book.cpp:46`): `ModifyReplacesExactly`,
  `ModifyLoses`.
- A trade at a worse price cancels every better order even if the trade was owed in full
  (`src/book_side.cpp:128`), so an order that was filled in part can lose its remainder to its
  own trades: `PartialFillExactly`.

The code and its documentation differ in two places; the model follows the code. The
repository's `README.md:88` and `README.md:140` say that cancellations guessed from a trade or
a snapshot are added to the debts, but neither `src/book_side.cpp:123-140` nor
`src/book_side.cpp:185-243` does so. Its `README.md:142` says that the orders with the best
prices are guessed as executed; the code takes first the orders of rows that shrank, in the
order of the rows, and after them the orders of levels that are missing.

## The test framework

- `BipartiteMatching`: arrays of links improved by depth-first search. The proof keeps a set of
  dead right nodes, which no search can leave; at the end it certifies that nothing larger
  exists.
- `Glob`: the pattern matcher that goes back only to the last star, splitting, and the two
  filter classes.
- `RegexSyntax`, `RegexMatcher`, `RegularExpression`: the grammar the validator accepts, the
  language an expression denotes, and the matcher as a decision procedure for it. `RE::Init`
  decides by the last character whether to add '$', so a full match is what its comment says
  exactly for expressions that do not end in an escaped dollar sign (`FullMatchExactly`).
- `Expectations`, `PrerequisiteWalks`: the two worklist walks over prerequisites, sequences, and
  when the walk that checks for satisfaction ends. It keeps no record of where it has been, so
  on a cycle of satisfied prerequisites it goes on for ever: `EndsExactly`, `EmptiesExactly`.

## Model

| member | source | states |
|---|---|---|
| Level.L3PriceLevel.AddOrder | src/level.cpp:7-15 | The order joins the back of the level's queue, and the cached quantity and count again equal the sums over the queue. |
| Level.L3PriceLevel.RemoveOrder | src/level.cpp:17-21 | Exactly the named order leaves the queue; the caches still agree. |
| Level.L3PriceLevel.ModifyOrder | src/level.cpp:23-27 | The order gets its new quantity in place; the caches still agree. |
| Level.L3PriceLevel.FillOrder | src/level.cpp:29-33 | The order is filled in place by at most what remains of it; the caches still agree. |
| BookSides.BookSide.constructor | src/book_side.cpp:8-12 | A new side is empty and valid. |
| BookSides.BookSide.AddOrder | src/book_side.cpp:14-19 | In the side's price-time list the order is inserted behind all prices as good as its own, or nothing happens if its id is taken; levels, caches and index agree with the list again. |
| BookSides.BookSide.RemoveOrder | src/book_side.cpp:21-30 | Exactly the named order leaves list, level and index; no empty level stays; an unknown id changes nothing. |
| BookSides.BookSide.ModifyOrder | src/book_side.cpp:32-48 | The list changes as SideModel.ModifyOrder says (see Priority.ModifyPriority), with levels and index in agreement. |
| BookSides.BookSide.FillOrder | src/book_side.cpp:72-73 | Filling an order through its level replaces it in place in the list and moves no other order. |
| BookSides.BookSide.BookCrossedWithPrice | src/book_side.cpp:50-53 | True exactly when the best order of the list is no worse than the price. |
| BookSides.BookSide.ExistOrder | src/include/book_side.h:26-28 | An id is in the index exactly when an order of the list has it. |
| BookSides.BookSide.SaveL2SnapshotSide | src/book_side.cpp:288-294 | The L2 view of the list, level by level from the best, is queued (what it shows: Determined.ViewShows). |
| BookSides.BookSide.ProcessCrossedOrder | src/book_side.cpp:63-91 | The nested loops do to side, order and events exactly what one greedy sweep of the price-time list does, and end. |
| BookSides.BookSide.ProcessOrderCancel | src/book_side.cpp:93-102 | What is owed at the price is settled first; an order is erased and reported only if something is left to cancel and the id rests (exactly: Cancellations.CancelExactly). |
| BookSides.BookSide.ProcessTrade | src/book_side.cpp:105-170 | The three steps change the side, report and queue views as one trade does (exactly: Trades.TradeExactly). |
| BookSides.BookSide.ProcessL2Snapshot | src/book_side.cpp:172-249 | An expected snapshot is ticked off, an unexpected one with views still queued is ignored, and any other resynchronises the side (exactly: Resyncs.SnapshotExactly). |
| BookSides.BookSide.MatchPendingLiqAdd | src/book_side.cpp:251-266 | Whenever the loop as written comes back at all, it returns the matched quantity and leaves the map that MatchAdd gives. |
| BookSides.BookSide.MatchPendingLiqRemove | src/book_side.cpp:268-278 | Takes the smaller of debt and quantity off the debt at exactly that price, and drops a settled entry (exactly: Determined.SettledExactly). |
| BookSides.BookSide.AddPendingLiqRemoveQty | src/book_side.cpp:280-286 | Every EXEC event, and no other, adds its quantity to the debt at its price (exactly: Determined.OweEventsExactly). |
| OrderBook.SmartOrderBook.constructor | src/order_book.cpp:5-7 | A new book is empty, valid, and its sides own disjoint objects. |
| OrderBook.SmartOrderBook.ExistOrder | src/include/order_book.h:29-31 | True exactly when one of the sides has the order. |
| OrderBook.SmartOrderBook.ProcessOrderAddMessage | src/order_book.cpp:15-31 | Both sides and the events are those of ProcessAdd, whenever the message is processed to the end (exactly: Additions.AddBookExactly). |
| OrderBook.SmartOrderBook.ProcessOrderCancelMessage | src/order_book.cpp:33-38 | The named side and the events are those of ProcessCancel; the other side is untouched (exactly: Cancellations.CancelBookExactly). |
| OrderBook.SmartOrderBook.ProcessOrderModifyMessage | src/order_book.cpp:40-49 | An unknown id changes nothing; otherwise the book is that of a cancellation of what remains followed by a new order, and only MODIF is reported (exactly: Modifications.ModifyExactly). |
| OrderBook.SmartOrderBook.ProcessTradeMessage | src/order_book.cpp:51-56 | Both sides take the trade, and the events are merged bids first (exactly: Trades.TradeBookExactly). |
| OrderBook.SmartOrderBook.ProcessSnapshotMessage | src/order_book.cpp:58-63 | Each side takes its half of the snapshot, and the events are merged bids first (exactly: Resyncs.SnapshotBookExactly). |
| Priority.ModifyPriority | src/book_side.cpp:32-48 | A new quantity keeps an order's place in the list; a new price sends it to the back of that price's queue; all other queues stay, and an unknown id changes nothing. |
| Priority.CancelUndoesAdd | src/order_book.cpp:15-38 | Cancelling an order that came to rest whole restores the book if and only if no trade is owed at its price. |
| Priority.ModifyReplacesExactly | src/order_book.cpp:40-49 | Because the cancellation uses the new price, the old order goes if and only if the debt at that price is less than what remains of it. |
| Cancellations.CancelExactly | src/book_side.cpp:93-102 | A cancellation has one outcome: the debt at the price falls by the smaller of debt and quantity, whatever becomes of the order; the order goes if and only if it rests and the debt was less than the quantity, from its place and no other; CANCEL reports the quantity less what was settled, and there is no event otherwise. |
| Cancellations.CancelBookExactly | src/order_book.cpp:33-38 | That happens to the named side, and the other side stays as it is. |
| Additions.AddExactly | src/order_book.cpp:15-31 | A new order has one outcome: the loop over expectations takes its part; the rest is matched greedily; both sides owe every fill; each fill is reported EXEC with the order it filled and has queued the view of the levels as they then were; what is left joins the back of its price's queue unless its id rests already, and is reported ADD. |
| Additions.AddBookExactly | src/order_book.cpp:15-31 | The named side is the order's own, the other one is matched. |
| Additions.HangsExactly | src/order_book.cpp:15-31 | The handler never comes back exactly when no number of turns leaves the loop over expectations. |
| Modifications.ModifyExactly | src/order_book.cpp:40-49 | A modification has one outcome: for an unknown id none; otherwise what remains of the order is cancelled at the new price and the new quantity is a new order; MODIF is reported with the new quantity and price, and nothing else is. |
| Modifications.ModifyConserves | src/order_book.cpp:40-49 | If less is owed at the new price than remains, the old order is gone and the new quantity is what was expected, plus what the other side lost, plus what rests under the id, at the new price; no other order of the side changes. |
| Modifications.ModifyRests | src/order_book.cpp:40-49 | Where, besides, nothing is expected of it and it crosses nothing, the new order is last in its price's queue with the new quantity unfilled, every other order keeps its place, and the other side stays. |
| Modifications.ModifyLoses | src/order_book.cpp:40-49 | If at least as much is owed, the old order stays as it was and the list of the side does not change. |
| Agreement.AgreeInsert | src/book_side.cpp:14-19 | Adding to one queue and to the index keeps the three forms of the side (list, queues by price, index by id) in agreement. |
| Agreement.AgreeRemove | src/book_side.cpp:21-30 | So does removing an order, with its level if that was the last. |
| Agreement.AgreeReplace | src/level.cpp:23-33 | So does changing an order in place. |
| Agreement.AgreeFront | src/book_side.cpp:66-67 | The first key of the level map is the price of the first order of the list. |
| Greedy.SweepIsGreedy | src/book_side.cpp:63-91 | The sweep fills in price-time order, exhausts every order but the last it touches, and stops only when filled or no longer crossed. |
| Greedy.GreedyUnique | src/book_side.cpp:63-91 | No other outcome has those properties. |
| Greedy.GreedyExactly | src/book_side.cpp:63-91 | The matcher's outcome is exactly the greedy price-time outcome, for every book, quantity and limit. |
| Greedy.SweepSum | src/book_side.cpp:72-84 | Quantity is conserved: filled plus left is what came, and the resting total falls by what was filled. |
| Greedy.AddConserves | src/order_book.cpp:15-31 | A new order's quantity is what was expected of it, plus what the other side lost, plus what comes to rest; both debts rise alike, price by price, by what the other side lost there. |
| Greedy.TradeSplits | src/book_side.cpp:105-170 | A trade goes exactly to debt at its price, to that price's queue first to last, and to new expectation at its price; better levels go, worse levels stay, all other debts and expectations stay, and something is newly expected only if the level is gone. |
| Trades.TradeExactly | src/book_side.cpp:105-170 | A trade on a side has one outcome: the debt at its price is settled first; the orders strictly better than it go, and event j is CANCEL of the j-th with its original quantity; the open part is matched greedily at the price, one EXEC for each fill; what is left is expected there and reported as ADD and EXEC of id -1; one view is queued for each fill and each erased order. |
| Trades.TradeFillsQueue | src/book_side.cpp:142-160 | The fills are those of the queue at the price, first to last. |
| Trades.TradeBookExactly | src/order_book.cpp:51-56 | Both sides take the trade, and the events of the bids come before those of the asks. |
| PendingAddTheorems.LoopReturns | src/book_side.cpp:251-266 | Turn by turn, the loop leaves with the result of MatchAdd when that is defined. |
| PendingAddTheorems.LoopNeverReturns | src/book_side.cpp:251-266 | When it is not, no number of turns leaves the loop. |
| PendingAddTheorems.ExitsExactly | src/book_side.cpp:251-266 | MatchAdd is Done with a result if and only if some number of turns leaves the loop with it. |
| PendingAddTheorems.ReturnsExactly | src/book_side.cpp:251-266 | The loop as written ends if and only if the order is not good enough, or the first entry it cannot erase covers what is still to match. |
| PendingAddTheorems.WrittenLeaves | src/book_side.cpp:251-266 | What the loop as written leaves when it ends: at most the first two entries change, the first goes only if it is drained at the order's own price, and any other drained entry stays with quantity zero. |
| PendingAddTheorems.HangExample | src/book_side.cpp:251-266 | With 10 expected at 100, a bid for 20 at 101 loops for ever. |
| PendingAddTheorems.RepairedDrains | src/book_side.cpp:251-266 | With the drained key erased the loop always ends, matches the smaller of quantity and total if the order is good enough and nothing otherwise, drains best first, and keeps no zero. |
| PendingAddTheorems.AgreesExactly | src/book_side.cpp:260-262 | When the loop as written and the repaired one give the same result. |
| PendingAddTheorems.MatchConserves | src/book_side.cpp:251-266 | Either loop takes off the map exactly what it returns. |
| PendingAddTheorems.KeysStay | src/book_side.cpp:260-262 | The loop as written never erases a key other than the order's price. |
| Determined.SettledExactly | src/book_side.cpp:268-278 | Settling is the only change of the debts that lowers one price by the smaller of debt and quantity, no other price, and leaves no zero. |
| Determined.OweEventsExactly | src/book_side.cpp:280-286 | The debt at each price rises by what its EXEC events report and by nothing else, and a price is new among the debts only if it has one. |
| Reconciliation.TradesAbsorbed | src/book_side.cpp:105-170 | Trades that are owed in full, in any order, report nothing and only settle their debts. |
| Reconciliation.OrderLeadsTrades | src/order_book.cpp:15-31 | After a fully filled order, its trades in any permutation change no level, index, expectation or queued view, report nothing, and return both debts to their earlier values. |
| PartialFills.TradesCancel | src/book_side.cpp:123-140 | A trade at a worse price cancels what rests at a price, and no later trade brings it back. |
| PartialFills.PartialFillExactly | src/order_book.cpp:15-31 | An order that rests after some fills keeps resting through its own trades, in any order, with all debts restored and nothing reported, if and only if it did not cross or the best opposite price is its own limit; otherwise nothing rests at its price once its trades have come. |
| Confluence.TradesFill | src/book_side.cpp:105-170 | The trades of a sweep, before its order, leave the side what the sweep leaves. |
| Confluence.TradesExpected | src/book_side.cpp:162-168 | On the other side the same trades only raise what is expected. |
| Confluence.ExpectedOrder | src/book_side.cpp:251-266 | An order that all expectations are due to drains them if and only if the erase is repaired or the only key is its own price; the loop as written otherwise leaves something or, if more is to come, never ends. |
| Interleaving.SweepSplits | src/book_side.cpp:63-91 | Filling what the first k fills took, and then the rest, is filling all at once. |
| Interleaving.OrderMeets | src/order_book.cpp:15-56 | After the first k trades one side expects exactly what they filled and the other has the rest of the fills in front. |
| Interleaving.InterleavedExactly | src/order_book.cpp:15-56 | Wherever among its trades a fully filled order arrives, and however the trades behind it are permuted, levels, index and pending maps end as if it had come first, if and only if it does come first, or the erase is repaired, or the best opposite price is the order's own limit. |
| SnapshotTheorems.ViewRows | src/book_side.cpp:288-294 | The L2 view is strictly sorted, positive, and shows at every price the total resting there. |
| SnapshotTheorems.SameRows | src/book_side.cpp:174 | Two snapshots that show the same totals are equal. |
| Determined.ViewShows | src/book_side.cpp:288-294 | The view has, in book order, a row for each level and no other, with what rests there. |
| Determined.ShownOnce | src/book_side.cpp:288-294 | No other view shows that. |
| SnapshotTheorems.ResyncTotals | src/book_side.cpp:172-246 | After a resync a level without a row is gone, and every row is met unless the id made up for it was taken. |
| SnapshotTheorems.ResyncExact | src/book_side.cpp:172-246 | The side shows exactly the snapshot if and only if the ids made up from 100 on are free. |
| Resyncs.SnapshotExactly | src/book_side.cpp:172-249 | A snapshot on a side has one outcome: ticked off, ignored, or a resync, where each excess is one order made up behind its queue, with ids from 100 on in row order, expected even if its id is taken; each lack is cut from its queue first to last; the cuts of shrunken rows come before those of missing levels, each part best price first; additions are reported first with id -1, then every cut, the first 30 percent as EXEC and the others as CANCEL. |
| Resyncs.SnapshotBookExactly | src/order_book.cpp:58-63 | Each side takes its half, and the events of the bids come before those of the asks. |
| SnapshotTheorems.SecondLook | src/book_side.cpp:172-246 | Applying what the side already shows reports nothing and changes nothing. |
| SnapshotTheorems.Ledger | src/book_side.cpp:185-245 | The pending-add map rises price by price by what was reported added; ADD minus EXEC minus CANCEL is never less than the change of the resting total, and equals it if and only if the made-up ids are free. |
| SnapshotTheorems.GuessShare | src/book_side.cpp:227-236 | Of the n orders cut, which are all different, exactly ceil(3n/10) are reported EXEC; all ADD events come first and all CANCEL events last. |
| SnapshotLemmas.SnapshotCuts | src/book_side.cpp:185-226 | The cuts of a resync name different resting orders and never more than remains of each. |
| ExpectedViews.ViewsExactly | src/book_side.cpp:74-75 | The view queued with a fill is the true one exactly while its level has an order left; a drained level is queued with quantity zero. |
| ExpectedViews.FollowsAgainExactly | src/book_side.cpp:174-178 | Snapshots can bring a side back to following them if and only if no queued view is one that a snapshot cannot show. |
| ExpectedViews.DrainedNeverFollows | src/book_side.cpp:63-91 | After one crossing that drains a level no snapshot ever changes the side again. |
| ExpectedViews.CrossFollowsExactly | src/book_side.cpp:63-91 | After an aggressive order a side can follow snapshots again if and only if it could before and the order leaves some of the best level. |
| ExpectedViews.TradeFollowsExactly | src/book_side.cpp:123-159 | After a trade it can if and only if it could before and the trade, as far as it was not owed, leaves some of the level at its price. |
| Invariants.AddToKeeps | src/order_book.cpp:15-31 | A new order keeps both sides well formed and every bid below every ask. |
| Invariants.CancelBookKeeps | src/order_book.cpp:33-38 | So does a cancellation. |
| Invariants.ModifyKeeps | src/order_book.cpp:40-49 | So does a modification. |
| Invariants.TradeBookKeeps | src/order_book.cpp:51-56 | So does a trade. |
| Invariants.SnapshotBookKeeps | src/order_book.cpp:58-63 | A snapshot keeps both sides well formed. |
| Runs.RunKeeps | src/order_book.cpp:15-63 | From any good book, every run of messages that is processed keeps every bid below every ask. |
| Runs.RunFromEmpty | src/order_book.cpp:15-63 | From the empty book, any run leaves a well-formed book that neither side's best price crosses. |
| Runs.BothOrNeither | src/order_book.cpp:58-63 | While both sides follow a snapshot, or neither does, an uncrossed snapshot fits the book. |
| Runs.PlainRunKeeps | src/order_book.cpp:15-63 | Every run of messages whose snapshots are uncrossed and come while both queues are empty keeps every bid below every ask. |
| Runs.SnapshotUncrossedExactly | src/order_book.cpp:58-63 | A snapshot leaves the book uncrossed if and only if the prices the two sides will show are uncrossed, where new prices whose made-up id is taken are not shown and a side with queued views shows its own. |
| Runs.OneSideFollows | src/order_book.cpp:58-63 | An uncrossed snapshot that only the asks follow crosses the book. |
| Witnesses.TradeThenBidHangs | src/book_side.cpp:251-266 | From the empty book: a trade (10 at 100), and the handler of a bid for more at a higher price (20 at 101) never returns. |
| Witnesses.TradeCancelsItsBid | src/book_side.cpp:123-140 | From the empty book: an ask (10 at 100), a bid for more at a higher price (20 at 101) that rests with what is left, and its own trade cancels that. |
| Witnesses.BidAndTradeDiffer | src/order_book.cpp:15-56 | From the empty book: an ask, a bid that takes it at a better limit, and their trade; with the trade before the bid an entry of zero stays expected, with the bid first nothing does. |
| Witnesses.AsksStopFollowing | src/book_side.cpp:74-75 | From the empty book: a bid takes a whole ask, the asks can follow no snapshot again, and the ask of the next snapshot is not shown. |
| Witnesses.SnapshotCrosses | src/order_book.cpp:58-63 | From the empty book: a bid, an ask that meets it in part, and an uncrossed snapshot that crosses the book. |
| Witnesses.SnapshotNotShown | src/book_side.cpp:181-214 | From the empty book: an order with the id 100, and a snapshot whose new best level is not shown. |
| Witnesses.ModificationLost | src/order_book.cpp:40-49 | From the empty book: a bid that rests after a fill, and a modification that leaves it as it was. |
| Runs.OrdersAbsorbedExactly | src/book_side.cpp:251-266 | Orders that add up to what is expected are all absorbed (no level changes, nothing is reported, nothing is left to expect) if and only if they come best price first. |
| Runs.SnapshotLeadsOrders | src/book_side.cpp:201-214 | After a resync, the real orders behind it leave every level as the snapshot showed it, report nothing and empty the pending-add map, if and only if they come best price first. |
| Runs.ExpectedSnapshots | src/book_side.cpp:174-178 | Snapshots that were expected are ticked off in order and change nothing else. |
| BipartiteMatching.MaxBipartiteMatchState.TryAugment | submodules/googletest/googlemock/src/gmock-matchers.cc:184-208 | Failure changes no link and every node it marked is taken with no way out; success links exactly one more left node, keeps links mutual except at the one being freed, and never touches a dead region. |
| BipartiteMatching.MaxBipartiteMatchState.Compute | submodules/googletest/googlemock/src/gmock-matchers.cc:132-163 | The pairs are a matching of the graph, and no matching is larger. |
| BipartiteMatching.FindMaxBipartiteMatching | submodules/googletest/googlemock/src/gmock-matchers.cc:228-230 | The result is a maximum matching. |
| BipartiteMatching.DeadEnd | submodules/googletest/googlemock/src/gmock-matchers.cc:184-208 | A failed search behind a taken right node closes that node off. |
| BipartiteMatching.TakeFreed | submodules/googletest/googlemock/src/gmock-matchers.cc:98-105 | After a successful search behind it, taking the freed node restores mutual links and counts as one augmentation. |
| BipartiteMatching.Maximum | submodules/googletest/googlemock/src/gmock-matchers.cc:133-145 | The dead right nodes prove the links maximum: every edge of any matching is accounted for by a different linked left node, though each left node was tried once. |
| Glob.MatchesExactly | submodules/googletest/googletest/src/gtest.cc:723-728 | The recursive meaning of a pattern holds exactly when the name can be cut into one fitting part for each pattern character. |
| Glob.LastStar | submodules/googletest/googletest/src/gtest.cc:752-761 | Whatever an earlier star could reach by taking more, the last star can reach too. |
| Glob.PatternMatchesString | submodules/googletest/googletest/src/gtest.cc:729-774 | The single loop that backtracks only to the last star ends and agrees with the meaning of the pattern. |
| Glob.SplitJoin | submodules/googletest/googletest/src/gtest.cc:1277-1292 | Joining the parts gives the string back, and no part has a delimiter. |
| Glob.JoinSplit | submodules/googletest/googletest/src/gtest.cc:1277-1292 | The parts are the only such list. |
| Glob.SplitString | submodules/googletest/googletest/src/gtest.cc:1277-1292 | The loop over find and substr returns those parts. |
| Glob.ExactPattern | submodules/googletest/googletest/src/gtest.cc:778-781 | A pattern without wildcards matches itself alone, so it may be looked up. |
| Glob.UnitTestFilter.constructor | submodules/googletest/googletest/src/gtest.cc:788-802 | The two collections hold exactly the wildcard and the other patterns of the filter. |
| Glob.UnitTestFilter.MatchesName | submodules/googletest/googletest/src/gtest.cc:806-814 | Looking up and matching accepts a name exactly when some pattern of the filter matches it. |
| Glob.MatchesFilter | submodules/googletest/googletest/src/gtest.cc:876-879 | A name passes exactly when some ':'-separated pattern matches it. |
| Glob.PositiveAndNegativeUnitTestFilter.constructor | submodules/googletest/googletest/src/gtest.cc:828-853 | The two filters select what is before the first '-' and reject everything after it, further dashes included. |
| Glob.PositiveAndNegativeUnitTestFilter.MatchesName | submodules/googletest/googletest/src/gtest.cc:865-868 | Accepts exactly the names the whole filter selects. |
| Glob.OnlyNegative | submodules/googletest/googletest/src/gtest.cc:834-837 | With nothing before the '-' every name is selected that the rest does not name. |
| RegexSyntax.AtomExactly | submodules/googletest/googletest/src/gtest-port.cc:781-811 | For a valid atom, the character test is membership in the class the atom names. |
| RegexSyntax.PunctExactly | submodules/googletest/googletest/src/gtest-port.cc:764-766 | The punctuation table holds exactly the printed ASCII characters that are no letter, digit or blank. |
| RegexSyntax.EscapeExactly | submodules/googletest/googletest/src/gtest-port.cc:774-777 | An escape sequence is valid exactly for punctuation and for the eleven letters that name a class or control character. |
| RegexSyntax.MetaExactly | submodules/googletest/googletest/src/gtest-port.cc:848-869 | A character may stand alone exactly if it is none of the thirteen that repeat, anchor, escape or are unsupported. |
| RegexSyntax.ParsedSpells | submodules/googletest/googletest/src/gtest-port.cc:822-873 | Whatever parses is spelled by its parse. |
| RegexSyntax.SpelledParses | submodules/googletest/googletest/src/gtest-port.cc:822-873 | Whatever an expression spells parses back to it. |
| RegexSyntax.SpelledOnce | submodules/googletest/googletest/src/gtest-port.cc:822-873 | A text spells at most one expression. |
| RegexSyntax.ScansExactly | submodules/googletest/googletest/src/gtest-port.cc:833-870 | The validator's scan with its two flags accepts exactly the texts of the grammar. |
| RegexSyntax.ValidateRegex | submodules/googletest/googletest/src/gtest-port.cc:822-873 | True exactly when the text is that of some expression: optional '^', items of one atom and at most one repetition, optional '$'. |
| RegexMatcher.HeadSplits | submodules/googletest/googletest/src/gtest-port.cc:882-901 | A match at the head is a beginning in the first item's language followed by a match of the rest. |
| RegexMatcher.MatchRepetitionAndRegexAtHead | submodules/googletest/googletest/src/gtest-port.cc:882-901 | True exactly when some allowed number of repetitions can be followed by a match of the rest. |
| RegexMatcher.MatchRegexAtHead | submodules/googletest/googletest/src/gtest-port.cc:906-930 | True exactly when a word of the language begins the string (and ends it, under '$'). |
| RegexMatcher.MatchRegexAnywhere | submodules/googletest/googletest/src/gtest-port.cc:940-950 | For every valid expression, true exactly when a word of its language occurs in the string, at the head under '^' and up to the end under '$'. |
| RegularExpression.RE.constructor | submodules/googletest/googletest/src/gtest-port.cc:968-993 | Valid exactly when the text spells an expression, and then with the full pattern. |
| RegularExpression.RE.PartialMatch | submodules/googletest/googletest/src/gtest-port.cc:963-965 | True exactly when a word of the language occurs in the string. |
| RegularExpression.RE.FullMatch | submodules/googletest/googletest/src/gtest-port.cc:957-959 | True exactly when the expression that the full pattern spells occurs. |
| RegularExpression.FullSpells | submodules/googletest/googletest/src/gtest-port.cc:981-992 | The full pattern spells the expression anchored at both ends, unless it ends in an escaped dollar sign, where the end stays open. |
| RegularExpression.FullMatchExactly | submodules/googletest/googletest/src/gtest-port.cc:955-959 | A full match means that the whole string is in the language, for all strings, if and only if the expression does not end in an escaped dollar sign. |
| RegularExpression.FullMatchLetsThrough | submodules/googletest/googletest/src/gtest-port.cc:968-993 | The expression a\$ fully matches the string a$b, which is not in its language. |
| Expectations.ExpectationBase.RetireAllPreRequisites | submodules/googletest/googlemock/src/gmock-spec-builders.cc:109-132 | If retired expectations have retired prerequisites, exactly the transitive prerequisites are newly retired and that closure holds again, shortcuts and cycles notwithstanding. |
| Expectations.ExpectationBase.AllPrerequisitesAreSatisfied | submodules/googletest/googlemock/src/gmock-spec-builders.cc:136-153 | Without a cycle ahead among expectations whose immediate prerequisites are all satisfied, the walk ends, and is true exactly when every transitive prerequisite is satisfied. |
| PrerequisiteWalks.CycleNeverEnds | submodules/googletest/googlemock/src/gmock-spec-builders.cc:140-151 | With a cycle ahead, no number of turns, in any order of pushing, empties the worklist. |
| PrerequisiteWalks.RunBound | submodules/googletest/googlemock/src/gmock-spec-builders.cc:140-151 | Without a cycle ahead that can be passed, every run is short: each turn lowers a measure of the worklist. |
| PrerequisiteWalks.LongRun | submodules/googletest/googlemock/src/gmock-spec-builders.cc:140-151 | With one, there is a run of any length. |
| PrerequisiteWalks.EndsExactly | submodules/googletest/googlemock/src/gmock-spec-builders.cc:140-151 | Over all orders of pushing, runs end within a bound if and only if no cycle is ahead among expectations whose immediate prerequisites are all satisfied. |
| PrerequisiteWalks.EmptiesExactly | submodules/googletest/googlemock/src/gmock-spec-builders.cc:136-153 | Some run empties the worklist if and only if everything needed is satisfied and no cycle is ahead; with everything needed satisfied, all runs end if and only if no cycle is ahead. |
| PrerequisiteWalks.TwoCycle | submodules/googletest/googlemock/src/gmock-spec-builders.cc:759-767 | Two expectations in one sequence, and then the first again, make a cycle on which no run reaches the answer. |
| PrerequisiteWalks.BuildTwoCycle | submodules/googletest/googlemock/src/gmock-spec-builders.cc:759-767 | The same by the calls that build it. |
| Expectations.Sequence.AddExpectation | submodules/googletest/googlemock/src/gmock-spec-builders.cc:759-767 | At most the link from the new expectation to the last one is added, and the new one becomes the last. |
| Expectations.AcyclicExactly | submodules/googletest/googlemock/src/gmock-spec-builders.cc:759-767 | An addition makes a cycle if and only if the last expectation already needs the new one. |
| Expectations.SequenceInOrder | submodules/googletest/googlemock/src/gmock-spec-builders.cc:759-767 | In a sequence of different expectations each needs all the earlier ones. |
| Expectations.SequenceAcyclic | submodules/googletest/googlemock/src/gmock-spec-builders.cc:759-767 | Expectations that nothing needs yet can be put in sequence without making a cycle. |

## Left out

- Orders as shared objects: an order is a value stored in its level's queue, and the index maps its id to the price of its level instead of to a shared pointer and a list iterator. In-place changes of a level are modelled, sharing of one order object between owners is not.
- The order of a standard map: a level map is walked by picking the best key that is left, and the map of expectations is its sequence of entries in key order.
- Doubles and 32-bit integers: prices are real numbers (no NaN, no rounding), quantities are unbounded integers. The share of guessed executions, ceil(0.3 n), is the integer (3n + 9) / 10.
- Negative quantities: messages carry quantities of zero or more, and the rows of a snapshot are in book order, distinct and positive, as the exchange sends them.
- BookSides.BookSide.MatchPendingLiqAdd: does not describe the state during a loop that never ends, because no caller sees it; `LoopNeverReturns` says when that happens.
- OrderBook.SmartOrderBook.ProcessOrderAddMessage: requires a message on which the loop as written ends, for the same reason.
- OrderBook.SmartOrderBook.ProcessOrderModifyMessage: requires the same; the events of the inner cancellation and addition are discarded, as in the code.
- Interleaving.InterleavedExactly: does not compare the queues of expected snapshots, which record the order of arrival.
- Within one crossing the aggressor's fill and the debts are written after each level, not after each order, which nothing can observe in between.
- The quantities of CANCEL events: a trade reports the original quantity of an order it cancels (src/book_side.cpp:132), so conservation is stated over states.
- src/l2_book.cpp and getL2Book: wrappers of a map; the L2 view is the function L2View.
- src/book_manager.cpp, printing, logging, reserved capacities and message parsing.
- Expectations.ExpectationBase.AllPrerequisitesAreSatisfied: requires that no cycle is ahead among expectations whose immediate prerequisites are all satisfied, because otherwise some order of pushing never ends (`EndsExactly`).
- How IsSatisfied counts calls: its answer is a field of the expectation. The locks around the walks are not modelled.
- The check failures and messages of the validator and of the matching: only the answers are modelled.
- RegexMatcher.MatchRegexAnywhere: strings longer than the largest index are excluded, as the source's own comment does.
- UnitTestFilter's hash set and the order of its collections: the exact patterns are a set, and the wildcard patterns keep their order.
- Edit distances, death tests, reporting, flags, threads, and the rest of the test framework.
