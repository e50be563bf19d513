# Limit-order matching engine, modelled in Dafny

This project models the matching core of a small continuous double-auction engine
(`matching_engine/python_prototype/engine.py`). An order book keeps two sides of resting
limit orders. Bids are sorted by descending price and asks by ascending price, and each
side is first-in first-out among orders of equal price. An incoming limit order checks
whether it crosses the best opposite price. If it does, it walks the opposite side in
book order. Each resting order it fully absorbs is consumed and later removed. At most
one resting order, the last one visited, is filled in part and shrunk in place. Whatever
is left of the incoming order is posted under its own id at its own price. An order that
does not cross is posted as it is. Every match appends a trade to the engine's ledger.

The files:

- `orders.dfy` (module `Orders`): the `Order` and `Trade` records, `Side` and `OrderType`,
  and the total quantity of a run of trades.
- `order_book.dfy` (module `OrderBooks`): the sort key of each side, right-bisect insertion
  (`InsertAfterEqual`) and first-match removal (`RemoveFirst`) as functions, a
  binary-search `BisectRight`, the book's value `BookState` with `AddOrder`/`RemoveOrder`,
  and the class `OrderBook`. Its fields `bids` and `asks` are changed in place by `Add`
  and `Remove`.
- `matching.dfy` (module `Matching`): the walk as a function (`Sweep`), mirroring the
  loop step for step. The whole matching step over a book value is `Match`, and the
  lemmas prove its properties. The class `MatchingEngine` holds the book and the trade
  ledger. Its `MatchLimitOrder` hands a crossing order to `Execute`, which walks the
  contra side with a `while` loop: `WalkAsks` for a buy, `WalkBids` for a sell, as the
  program has two loops. The loop appends trades to the ledger and shrinks the partly
  filled resting order in the book's field. Then `RemoveConsumed` takes the consumed
  orders off one by one through `OrderBook.Remove`, and the remainder is posted through
  `OrderBook.Add`. These methods are proved to produce exactly `Match` of the old book.

The engine's invariant (`MatchingEngine.Valid`) has three parts. Both sides are sorted
and hold only orders of their own side. No resting order has quantity 0. The best bid is
below the best ask, or a side is empty. The constructor establishes it and every
operation keeps it.

Behaviour kept as the code has it:

- An empty side's best price is the number 0. So a buy at a price
  of 0 or more meets an empty ask side on the "crossing" path. Its walk visits nothing
  and the whole order is posted as a new limit order (`BuyIntoEmptyAsks`).
- Every trade is built as `Trade(incoming id, resting id, ...)`. For an incoming sell, the
  seller's id therefore lands in `buyOrderId` and the buyer's in `sellOrderId`
  (`SellerIdFirst`, `MatchFills`).
- Orders of a type other than "limit" are dropped without changing anything,
  `cancel_order` does nothing, and an unrecognised side is silently ignored. The engine
  validates nothing and `cancel_order` has no not-found path; `OrderBook.remove` of an
  absent order raises (see Left out).
- The engine has no sequencer. The model is sequential.

Prices are integers and quantities natural numbers. The model asks one thing of callers
that the program does not check: a limit order has a positive quantity (every order the
load generator builds has one, `benchmark.py` lines 36 and 85). Without it, a
zero-quantity order that does not cross would rest in the book as an empty order; one
that crosses trades nothing and posts nothing, since nothing of it is left open. The
model needs no positivity of prices: the 0 sentinel does no harm for any integer price,
which the lemmas show.

## Model

| member | source | states |
|---|---|---|
| `OrderBooks.InsertAfterEqual` | matching_engine/python_prototype/engine.py:57-65 | inserting one order into a side makes it exactly one longer |
| `OrderBooks.InsertAt` | matching_engine/python_prototype/engine.py:57-65 | the order lands right after every resting order whose key (price, negated for bids) is at most its own and before the first one with a greater key: behind every order of equal price (FIFO) |
| `OrderBooks.InsertMultiset` | matching_engine/python_prototype/engine.py:57-65 | insertion adds exactly the new order to the side: nothing lost, nothing duplicated |
| `OrderBooks.InsertKeepsSorted` | matching_engine/python_prototype/engine.py:34-36 | insertion keeps bids sorted by descending and asks by ascending price |
| `OrderBooks.InsertKeepsValid` | matching_engine/python_prototype/engine.py:57-65 | inserting an order of the side keeps the side sorted and holding only that side's orders |
| `OrderBooks.RemoveFirstMultiset` | matching_engine/python_prototype/engine.py:68-74 | removal takes away exactly one copy of a present order and shrinks the side by one; for an absent order the contents and the length stay as they were |
| `OrderBooks.RemoveFirstAbsent` | matching_engine/python_prototype/engine.py:68-74 | removing an order that is not on the side leaves the side equal to what it was |
| `OrderBooks.RemoveFirstAt` | matching_engine/python_prototype/engine.py:68-74 | removal deletes exactly the entry at the order's first index and keeps every other resting order in its place and order, so equal-price orders keep their arrival order |
| `OrderBooks.RemoveFirstKeepsValid` | matching_engine/python_prototype/engine.py:68-74 | removal keeps a side sorted and holding only that side's orders |
| `OrderBooks.BisectRight` | matching_engine/python_prototype/engine.py:60-64 | the right bisection point of a sorted side: every entry before it has key at most the order's, every entry from it on a greater key |
| `OrderBooks.AddOrderEffect` | matching_engine/python_prototype/engine.py:57-65 | `add` keeps the book valid, puts a buy into the bids and a sell into the asks, grows the book by exactly one and leaves the other side unchanged; an order of an unrecognised side changes nothing |
| `OrderBooks.RemoveOrderEffect` | matching_engine/python_prototype/engine.py:68-74 | `remove` of a present order keeps the book valid, takes exactly one copy from its own side, shrinks the book by one and leaves the other side unchanged; an unrecognised side changes nothing |
| `OrderBooks.RemoveOrderInPlace` | matching_engine/python_prototype/engine.py:68-74 | `remove` of a present order deletes exactly the first entry equal to it on its own side (found by `FirstIndex`); every other resting order keeps its place and order, and the other side is unchanged |
| `OrderBooks.OrderBook.constructor` | matching_engine/python_prototype/engine.py:32-36 | a new book is valid and has no bids and no asks |
| `OrderBooks.OrderBook.Len` | matching_engine/python_prototype/engine.py:39-40 | the size of the book is the number of bids plus the number of asks |
| `OrderBooks.OrderBook.SizeOfBids` | matching_engine/python_prototype/engine.py:76-77 | the number of resting bids |
| `OrderBooks.OrderBook.SizeOfAsks` | matching_engine/python_prototype/engine.py:79-80 | the number of resting asks |
| `OrderBooks.OrderBook.BestBid` | matching_engine/python_prototype/engine.py:43-47 | the best bid is the price of some resting bid and no bid is priced above it; it is 0 when there are no bids |
| `OrderBooks.OrderBook.BestAsk` | matching_engine/python_prototype/engine.py:50-54 | the best ask is the price of some resting ask and no ask is priced below it; it is 0 when there are no asks |
| `OrderBooks.OrderBook.Add` | matching_engine/python_prototype/engine.py:57-65 | the book stays valid and its new value is `AddOrder` of the old one (see `AddOrderEffect`) |
| `OrderBooks.OrderBook.Remove` | matching_engine/python_prototype/engine.py:68-74 | for an order resting on its own side, the book stays valid and its new value is `RemoveOrder` of the old one (see `RemoveOrderEffect` and `RemoveOrderInPlace`) |
| `Matching.Sweep` | matching_engine/python_prototype/engine.py:109-139 | the walk leaves the contra side's length alone, consumes at most all of it, and never fills more than the incoming quantity |
| `Matching.SweepShape` | matching_engine/python_prototype/engine.py:109-139 | when the walk ends, a prefix of the contra side was filled whole in book order; at most one more order, the last visited, was filled in part, shrunk in place, and the incoming order then filled; nothing else changed; the trades total the filled quantity; and the walk stopped at the end, at a refused price or once filled |
| `Matching.RefusedOnward` | matching_engine/python_prototype/engine.py:113-114 | once a resting price is refused, every later one on the sorted contra side is refused too |
| `Matching.MatchConserves` | matching_engine/python_prototype/engine.py:104-196 | what a crossing order trades plus what it posts equals its quantity; a remainder is posted, with the same id and the incoming price, exactly when the order was not filled; the incoming side's resting orders are unchanged; an order that does not cross trades nothing, is below the best ask (a buy) or above the best bid (a sell), and is posted as it is |
| `Matching.MatchFills` | matching_engine/python_prototype/engine.py:109-139 | the k-th trade is against the k-th resting order of the contra side, at that order's price, which the incoming order accepts (at most its limit for a buy, at least for a sell); its ids are the incoming order's then the resting order's; its quantity is positive, at most the resting order's and at most what the incoming order still had open |
| `Matching.MatchConsumesPrefix` | matching_engine/python_prototype/engine.py:109-143 | price priority: the matched orders all but the last were consumed whole and are removed; the last is removed too when consumed whole and otherwise stays at the front shrunk by its trade; every later resting order is untouched |
| `Matching.MatchExhausts` | matching_engine/python_prototype/engine.py:109-147 | a crossing order leaves a remainder only after every contra order at a price it accepts was consumed |
| `Matching.SweptSideValid` | matching_engine/python_prototype/engine.py:139-143 | after the walk and the removals, the contra side is still sorted, holds only its own side's orders, none empty, and its front is no better than before |
| `Matching.ReduceKeepsValid` | matching_engine/python_prototype/engine.py:139 | shrinking a resting order in place keeps its side sorted |
| `Matching.PostKeepsResting` | matching_engine/python_prototype/engine.py:146-147 | posting an order with something left to fill keeps the book valid with no empty order |
| `Matching.MatchKeepsResting` | matching_engine/python_prototype/engine.py:102-196 | after a match both sides are still sorted, each holds only its own side's orders, and none is empty |
| `Matching.MatchKeepsNoCross` | matching_engine/python_prototype/engine.py:102-196 | no-cross: if the best bid was below the best ask (or a side was empty) before a limit order, the same holds after it |
| `Matching.BuyIntoEmptyAsks` | matching_engine/python_prototype/engine.py:104-147 | a buy at a price of 0 or more against no asks takes the crossing path, trades nothing and rests whole as a new limit order |
| `Matching.WalksTwoAsks` | matching_engine/python_prototype/engine.py:109-147 | a buy for 12 at 102 against asks 10 at 101 and 5 at 102 trades 10 at 101 and 2 at 102 and leaves 3 at 102 resting |
| `Matching.SellerIdFirst` | matching_engine/python_prototype/engine.py:170 | a sell meeting a bid of equal size empties the book, and the trade's buy-order id is the seller's |
| `Matching.SellRestsRemainder` | matching_engine/python_prototype/engine.py:150-191 | a sell for 5 at 100 against a bid of 3 at 100 trades 3 and rests 2 at 100 under the seller's id |
| `Matching.MatchingEngine.constructor` | matching_engine/python_prototype/engine.py:85-89 | a new engine has an empty book and an empty ledger, and its invariant holds |
| `Matching.MatchingEngine.GetTrades` | matching_engine/python_prototype/engine.py:97-99 | returns every trade of the ledger, in the order appended |
| `Matching.MatchingEngine.Process` | matching_engine/python_prototype/engine.py:92-95 | a limit order gives the book and ledger of `Match`, with the ledger only appended to; any other type changes neither; the invariant (sorted sides, no empty order, no cross) is kept |
| `Matching.MatchingEngine.MatchLimitOrder` | matching_engine/python_prototype/engine.py:102-196 | the new book is `Match` of the old one, the ledger is the old ledger followed by `Match`'s trades, and the engine invariant, no-cross included, is kept |
| `Matching.MatchingEngine.Execute` | matching_engine/python_prototype/engine.py:104-191 | the crossing branch (walk, removal of the consumed orders, posting of the remainder when the order was not filled) leaves exactly `Match`'s book and appends exactly `Match`'s trades |
| `Matching.MatchingEngine.WalkAsks` | matching_engine/python_prototype/engine.py:109-139 | a buy's loop over the asks ends in exactly the state `Sweep` describes: the filled quantity, the consumed asks (a prefix of the ask side), the ask side with its one partly filled order shrunk, the bids untouched, and the ledger with the walk's trades appended; the book stays sorted |
| `Matching.MatchingEngine.WalkBids` | matching_engine/python_prototype/engine.py:155-183 | the same for a sell's loop over the bids, the ask side untouched |
| `Matching.MatchingEngine.RemoveConsumed` | matching_engine/python_prototype/engine.py:142-143 | removing the consumed prefix one order at a time leaves exactly the rest of the contra side, and the other side alone |
| `Matching.MatchingEngine.CancelOrder` | matching_engine/python_prototype/engine.py:198-199 | cancellation leaves the book and the ledger as they were |

## Left out

- Order objects are shared: in the program the in-place decrement of a resting order is
  also visible through any other reference to it. Orders here are values, and the
  decrement reassigns that entry of the side.
- Removal by object identity: the program removes the very object it consumed. The model
  removes the first equal order value. It takes off the same front entry, because the
  consumed orders are the front of the side.
- Removing an order that is not resting raises an error in the program's sorted list;
  `OrderBook.Remove` requires the order to be present instead. The engine only removes
  orders it has just walked over.
- The sorted-list container: each side is a sorted sequence. Its unused `bisect_right`
  results are modelled by `BisectRight`, the insertion point.
- The book constructor's optional initial bid and ask lists: no caller passes them, and
  the model's book starts empty.
- The removal of the consumed orders and the posting of the remainder, written out once
  per side in the program, are one method each (`RemoveConsumed`, `Execute`) over the
  contra side of the incoming order.
- Floating-point prices and quantities (the load generator uses them): prices are
  integers, quantities natural numbers, and the fill test is exact.
- The unused `queue` deque, threading and the network server: the model is one
  sequential engine.
- Printing and string helpers (`__str__`, `show`) and the lower-casing of the side: the
  side and the order type are enumerations.
- `matching_engine/python_prototype/benchmark.py`: random order generation, timing,
  printing and sockets, none of it matching logic.
- `Matching.MatchingEngine.Process`, `Matching.MatchingEngine.MatchLimitOrder`: a limit
  order with quantity 0 is excluded by a requires. The program would rest such an order
  in the book as an empty order when it does not cross; when it crosses it trades and
  posts nothing.
