# Binance order-book replica: a Dafny model

This project models the core of a small Python service. The service keeps a
local replica of one instrument's Binance limit order book. It combines a
REST depth snapshot with the websocket stream of diff events, and it resyncs
when the event chain breaks.

Two modules follow the two core files:

- `OrderBooks` (`orderbook.dfy`) models `byte/orderbook.py`.
  - The class `OrderBook` has the mutable `bids` and `asks` maps (price → order) and the `lastUpdateId` counter.
  - Its methods mutate them in place: upsert, delete and remove.
  - `TopAsk` and `TopBid` are read-only queries.
  - The pure functions `Upsert` and `ApplyAll` specify one update and a list of updates applied in order.
- `Binance` (`binance.dfy`) models the synchroniser of `byte/binance.py`.
  - The class `BinanceExchange` holds the book and `prevLastEventId`.
  - `UpdateOrderbook`, `UpdateFromEvent` and `Disconnect` change them step by step, as the source does.
  - `CreateOrderbookFromSnapshot` changes neither: it builds a fresh book by upserting the snapshot's levels one by one and returns it.
  - Each method is proved against a pure function: `Step`, `ApplyEvent` or `BookFromSnapshot`.
  - The lemmas state the synchronisation rules about these functions: anchoring, gap, staleness, resync, advance, contiguity and the invariant.

Prices and quantities are integer ticks. Sequence ids are natural numbers.
The snapshot fetch and the websocket are outside the model.
`UpdateOrderbook` takes as arguments the decoded event and the snapshots that its two possible fetches would return: `initial` for anchoring and `resync` after a break.
A closed connection is the separate method `Disconnect`.

A zero-quantity update for a price that the side does not hold fails.
The source deletes with `del`, which raises `KeyError`.
A no-op would be the forgiving choice; the model keeps the code's `KeyError`.
`Upsert` and `AddOrUpdateBid`/`AddOrUpdateAsk` return that error instead of requiring the price to be present.
Nothing in the synchroniser catches it. It escapes `_update_orderbook` and ends the listener.
`Step` therefore returns the error together with the state at the moment it was raised:
- the remembered id and the book's id are already advanced;
- the bids before the failing one are already applied.

An event whose first id is one past the remembered id is applied (`ChainOfEvents`).

## Model

| member | source | states |
|---|---|---|
| `OrderBooks.Upsert` | byte/orderbook.py:30-40 | a nonzero quantity stores the order under its own price; a zero quantity deletes that price and fails exactly when the price is absent, leaving the side unchanged; every other price keeps its level; a side with no zero-quantity or misplaced level keeps that property |
| `OrderBooks.ApplyAllFrame` | byte/binance.py:59-63 | upserting a list of levels adds no price outside the old ones and the mentioned ones, and keeps every level whose price is not mentioned |
| `OrderBooks.ApplyAllKeepsWellFormed` | byte/orderbook.py:30-40 | upserts in sequence never store a zero-quantity level or a level under another price |
| `OrderBooks.ApplyAllErrorCause` | byte/orderbook.py:31-32 | a failing list of updates contains a zero-quantity update for the price named by the error |
| `OrderBooks.ApplyAllResting` | byte/binance.py:77-83 | a list of updates without deletions never fails and leaves exactly the old prices plus the mentioned ones |
| `OrderBooks.ApplyAllStopsAtError` | byte/binance.py:59-60 | once an update raises, none of the later updates in the list is applied |
| `OrderBooks.LaterEntryWins` | byte/binance.py:59-63 | for a price updated several times, the last update decides: deleted if its quantity is zero, otherwise stored as that order |
| `OrderBooks.DeleteOfAbsentLevelFails` | byte/orderbook.py:31-32 | deleting a price the side does not hold raises a KeyError for that price and leaves the side as it was |
| `OrderBooks.HasLeast` | byte/orderbook.py:19 | every nonempty finite set of prices has a least element, so `min` over the ask prices is defined |
| `OrderBooks.HasGreatest` | byte/orderbook.py:22 | every nonempty finite set of prices has a greatest element, so `max` over the bid prices is defined |
| `OrderBooks.OrderBook.constructor` | byte/orderbook.py:13-16 | a new book has no bids, no asks and last update id 0 |
| `OrderBooks.OrderBook.TopAsk` | byte/orderbook.py:18-19 | None exactly when there are no asks; otherwise an ask price no greater than any ask price |
| `OrderBooks.OrderBook.TopBid` | byte/orderbook.py:21-22 | None exactly when there are no bids; otherwise a bid price no smaller than any bid price |
| `OrderBooks.OrderBook.RemoveBid` | byte/orderbook.py:24-25 | the bid at the price is gone whether or not it was there; asks and id unchanged |
| `OrderBooks.OrderBook.RemoveAsk` | byte/orderbook.py:27-28 | the ask at the price is gone whether or not it was there; bids and id unchanged |
| `OrderBooks.OrderBook.AddOrUpdateBid` | byte/orderbook.py:30-34 | the bids become the upsert of the order (or stay unchanged with a KeyError); asks and id unchanged; the no-zero-level invariant is kept |
| `OrderBooks.OrderBook.AddOrUpdateAsk` | byte/orderbook.py:36-40 | the same rule on the asks alone; bids and id unchanged |
| `Binance.SnapshotBookLevels` | byte/binance.py:74-85 | a book built from a snapshot has the snapshot's id and only the snapshot's prices, none carried over; at each price it holds the last snapshot order for that price (or nothing, if that order deletes it); with no deletions it is built without error and holds every snapshot price |
| `Binance.EventLevels` | byte/binance.py:56-63 | applying an event sets the book's id to the event's last id, keeps every unmentioned level, keeps the book well formed and cannot fail without deletions |
| `Binance.UninitialisedBookIsAnchored` | byte/binance.py:31-33 | a book with id 0 is replaced by the snapshot's book before any check; a failed build changes nothing; afterwards no old level survives unless a snapshot or the event names its price |
| `Binance.GapEventDropped` | byte/binance.py:36-39 | an event whose first id is beyond the book's id plus one is dropped: book and remembered id are left as the anchoring made them |
| `Binance.StaleEventDropped` | byte/binance.py:41-42 | an event whose last id is not beyond the book's id is dropped; an initialised state is left exactly as it was |
| `Binance.DiscontinuityResyncs` | byte/binance.py:44-51 | an event not continuing the previously applied one replaces the book by the resync snapshot's book, forgets the remembered id and applies none of its levels |
| `Binance.AppliedEventAdvances` | byte/binance.py:53-57 | an applied event sets both the book's id and the remembered id to its last id, strictly beyond the old id, with the book updated by its levels |
| `Binance.AppliedEventsAreContiguous` | byte/binance.py:38-53 | once an event has been applied, the next applied event starts exactly one past the book's id |
| `Binance.UnmentionedLevelsKept` | byte/binance.py:56-63 | an applied event keeps every bid level and every ask level whose price it does not mention |
| `Binance.StepKeepsConsistent` | byte/binance.py:30-63 | every step keeps both sides well formed and the remembered id equal to the (positive) book id |
| `Binance.RunKeepsConsistent` | byte/binance.py:87-112 | any run of events and disconnects keeps the synchroniser consistent |
| `Binance.SnapshotThenDeleteConverges` | byte/binance.py:30-63 | snapshot 100 with bid 1000 and ask 1050, then event 101..101 deleting the bid: no bids, the ask at 1050, id 101 |
| `Binance.ChainOfEvents` | byte/binance.py:36-57 | on a book at 100: event 101..103 is applied, 105..110 is dropped as a gap, then 104..104 is applied |
| `Binance.BinanceExchange.constructor` | byte/binance.py:21-25 | a new exchange holds a fresh empty book with id 0 and no remembered event |
| `Binance.BinanceExchange.UpdateOrderbook` | byte/binance.py:30-54 | the new state and the escaping error are exactly what `Step` gives for the old state; a consistent state stays consistent |
| `Binance.BinanceExchange.UpdateFromEvent` | byte/binance.py:56-63 | the book becomes exactly what `ApplyEvent` gives for the old book |
| `Binance.BinanceExchange.CreateOrderbookFromSnapshot` | byte/binance.py:65-85 | returns a fresh book equal to `BookFromSnapshot`, or the error that building it raised |
| `Binance.BinanceExchange.Disconnect` | byte/binance.py:108-112 | the book becomes a fresh empty book with id 0 and the remembered id is cleared |

## Left out

- HTTP snapshot fetch (byte/binance.py:67-73): network I/O. Its result is the `Snapshot` argument. A failed fetch is not modelled.
- Websocket subscription, reconnect loop and JSON decoding (byte/binance.py:87-107): transport. `Run` models only the order in which the listener handles decoded events and disconnects.
- The reset on `ConnectionClosed` is the method `Disconnect`.
- async/await and the concurrent printer task (main.py:26-29): not modelled. So a reader's view of a book that is half updated, or of an old book object it still holds after a replacement, is not modelled.
- The periodic printing loop (main.py:8-20): console output.
- byte/exchange.py: an abstract base class with no behaviour.
- `BinanceExchange.get_orderbook` (byte/binance.py:27-28): a plain accessor. The field `orderbook` is public in the model.
- The symbol and its lower-/upper-casing (byte/binance.py:22, 67, 88): only used to build URLs.
- Float and string numerics: prices and quantities are integer ticks. The string-against-0 comparison of the source is not reproduced.
- Quantities are not checked for sign, as in the source.
- `OrderedDict` insertion order: nothing depends on it. Each side is a plain map.
- Ids are natural numbers: the exchange's ids are unsigned. Negative ids, which the Python `int` would accept, are not modelled.
