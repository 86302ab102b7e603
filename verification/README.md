# AeroMatch matching core in Dafny

This project models the core of AeroMatch, a limit-order matching engine written in Go, and proves properties of the model. It covers four parts of the engine:

- **The per-instrument order book** (`internal/engine/book.go`), in `book.dfy`:
  - a bid side and an ask side of resting orders;
  - the matching loops of `ProcessBuyOrder` and `ProcessSellOrder`;
  - trade drafting, and appending at the tail of a side;
  - the best-order, depth and volume queries.
- **The order record** (`internal/models/order.go`), in `models.dfy`: its enumerations, `Validate` and `IsActive`.
- **The snapshot manager** (`internal/engine/snapshot.go`), in `levels.dfy` and `snapshots.dfy`:
  - book registration and the global sequence counter;
  - `TakeSnapshots` and `calculateStats`;
  - the defensive copies returned by `GetSnapshot`, `GetAllSnapshots` and `copyPriceLevels`;
  - the snapshot readers `GetPriceLevels` and `GetBestPrice`.
- **Engine routing** (`internal/engine/matching.go`), in `counters.dfy` and `matching.dfy`:
  - the instrument-to-book registry;
  - delivery of an order to its book;
  - `min`;
  - the trade-id and execution-id counters.

`wrappers.dfy` holds the `Option` and `Outcome` types.

## How the model is built

**The order book** is a class, `Book.OrderBook`, with three fields:
- `bids` and `asks`, each a sequence of orders from head to tail;
- `trades`, the log that stands for the book's `processedTrades` channel (`book.go:29`). Each send on that channel (`book.go:94`, `book.go:138`) is an append to `trades`.

**The sides keep arrival order.** `AddBid` and `AddAsk` append at the tail and never sort, so the "best" order of a side is its earliest arrival.

**Removal of exhausted makers.** In the source no maker ever leaves its side: `removeBid` and `removeAsk` have empty bodies (`book.go:232-238`), although the comment at `book.go:101` says the exhausted maker is removed. Removing it is this model's choice. The maker those calls receive is always the head of the side (`book.go:240-256`), so the model drops the head of the side. Without a removal, the loop could never move past a filled maker: every later fill would be `min(remaining, 0) = 0`.

**The matching loop** is `Book.OrderBook.MatchLoop`, a `while` loop shared by both directions.
- It is proved against the recursive function `Book.Match`, which describes the whole run of the loop: the trades, the opposite side left behind, the quantity left, and the reduced taker.
- The loop starts from the order's original `quantity`, not from its `remaining` (`book.go:76`, `book.go:120`).
- The properties of the loop are lemmas about `Match`: conservation, the fill rule, the fields of each trade, the reasons for stopping, and positivity.
- `ProcessBuyOrder` and `ProcessSellOrder` state their whole new state in terms of `Match`.

**Trade and execution ids** come from one `Counters.IdSource` object. The source keeps them in package globals (`matching.go:97-100`), shared by every engine and book of the process. Here the object is given to the engine's constructor and passed to whatever emits trades, so several engines can share one pair of counters.

**Clock readings** are parameters.
- The order book takes a clock function `clock`: `clock(t)` is the time read while the trade with id `t` is drafted. Every trade thus gets its own reading, as `createTradeDraft` reads the clock once per trade (`book.go:168`).
- The snapshot manager takes one reading `now` per cycle.

**The snapshot manager** is a class holding three fields: the books map, the published-snapshot map and the sequence counter. Each atomic pointer swap in the source is one assignment to one of these fields. A published entry is `Option` because the source stores pointers.

**Numbers.**
- Prices and quantities are integer ticks; the source uses `float64`.
- A mid-price is a `real`, with `2 * mid == bid + ask`.

**Where the code falls short of its own comments.** The model follows the code as written:
- The TODO at `book.go:33` plans a balanced tree or a skip list for a side. The code keeps a linked list in arrival order only, with no price ordering.
- `order.go:15` names FOK "Fill-or-Kill", which promises all-or-nothing. The code matches FOK incrementally and drops the remainder (see `Book.MatchesLikeLimit` and `Book.FokFillsPartially`).
- `order.go:16` names PostOnly a "Maker-only order". The code matches it like a Limit order when it crosses.
- `order.go:14` names IOC "Immediate-or-Cancel". The code stops an IOC taker after its first fill that leaves a remainder, even when further makers cross (`book.go:107-109`, `Book.MatchStops`).

**Behaviour kept as written.** The model also keeps these behaviours of the code:
- The adapter sets `Status` to New when it creates an order (`internal/protocol/grpc_server.go:148`). The matching code never updates it.
- A second registration for an instrument overwrites the first.
- A Market remainder rests on the book (`book.go:114`).

## Model

| member | source | states |
|---|---|---|
| Models.IsActive | internal/models/order.go:82-84 | holds exactly when the status is neither Filled, Cancelled nor Rejected, i.e. New or Partial |
| Models.Validate | internal/models/order.go:86-97 | no error iff quantity > 0, a Limit order has a positive price, and the instrument is non-empty; a non-positive quantity is reported before anything else; the price error iff the quantity is fine and a Limit order has price <= 0; the missing-instrument error iff only the instrument check fails |
| Models.NonLimitNeverPriceChecked | internal/models/order.go:90-92 | a non-Limit order never gets the price error, and changing its price never changes the validation result |
| Counters.Min | internal/engine/matching.go:90-95 | the result is at most both arguments and equal to one of them, and is the first argument when it is strictly smaller |
| Counters.IdSource.constructor | internal/engine/matching.go:97-100 | both counters start at zero |
| Counters.IdSource.GenerateTradeID | internal/engine/matching.go:102-104 | returns the previous counter plus one and leaves the counter there, so successive ids strictly increase |
| Counters.IdSource.NextExecutionID | internal/engine/book.go:165 | the execution counter advances by one and its new value is returned |
| Levels.DescribesLevelsUnique | internal/engine/snapshot.go:143-164 | the statistics of given bid and ask levels are determined uniquely |
| Levels.ZeroStatsForEmptyLevels | internal/engine/snapshot.go:143-164 | with no levels on either side, the statistics are exactly the all-zero record |
| Levels.CopyPriceLevels | internal/engine/snapshot.go:210-219 | a nil slice is copied as nil and only a nil slice; otherwise the copy has the same length and the same element at every index |
| Levels.GetPriceLevels | internal/engine/snapshot.go:232-237 | Buy selects the bid levels; any other side selects the ask levels |
| Levels.GetBestPrice | internal/engine/snapshot.go:240-246 | (0, false) when the side has no level; otherwise (price of its first level, true) |
| Levels.StatsAgreeWithBestPrices | internal/engine/snapshot.go:156-161 | for statistics that describe the snapshot's own levels: if both best prices exist, the spread is best ask minus best bid and the mid-price lies halfway between them; otherwise both are zero |
| Book.Head | internal/engine/book.go:240-256 | None exactly on an empty side; otherwise the first order of the side |
| Book.HeadAfterAppend | internal/engine/book.go:176-198 | appending at the tail leaves the head of a non-empty side unchanged, and makes the new order the head of an empty side |
| Book.GetDepth | internal/engine/book.go:268-280 | the count equals the number of the side's orders whose price is the given price |
| Book.GetTotalVolume | internal/engine/book.go:282-294 | the result is the sum of the original quantities of the side's orders at the given price |
| Book.VolumeAppend | internal/engine/book.go:282-294 | the volume of two sides joined is the sum of their volumes |
| Book.VolumeCoversDepth | internal/engine/book.go:268-294 | with positive quantities, the volume at a price is at least the depth there, and is zero exactly when the depth is zero |
| Book.Crosses | internal/engine/book.go:84-86 | the price test of both loops (the Sell form is at line 128); a definition without a contract of its own, whose meaning `Book.CrossesTest` states |
| Book.CrossesTest | internal/engine/book.go:84-86 | a Market taker crosses any maker; any other buyer crosses exactly the makers priced at or below its price, and any other seller exactly those priced at or above it (line 128) |
| Book.TradeDraft | internal/engine/book.go:162-174 | the trade record built from the maker, the taker, the fill, the ids and the clock reading; a definition without a contract of its own: the fields of every trade the loop drafts are stated by `Book.MatchTradeFields`, and `Book.OrderBook.ExecuteFill` ties each pushed trade to it |
| Book.AfterFill | internal/engine/book.go:101-104 | the side after a fill of its head; a definition without a contract of its own, whose shape `Book.AfterFillShape` states |
| Book.AfterFillShape | internal/engine/book.go:96-104 | the head leaves exactly when the fill reaches its remaining; otherwise it stays, the same order with its remaining reduced by the fill; the orders behind the head are untouched and in order |
| Book.VolumeIgnoresPartialFill | internal/engine/book.go:96-104 | a partial fill of the head leaves the volume at every price unchanged, because a node keeps the order's original quantity |
| Book.Match | internal/engine/book.go:76-111 | the reference definition of one run of the loop; it carries no contract of its own, and its properties are the lemmas below |
| Book.Rests | internal/engine/book.go:113-116 | a taker rests only with a positive quantity left; IOC and FOK takers never rest; any other taker rests exactly when a positive quantity is left (the same test at line 157) |
| Book.MatchConserves | internal/engine/book.go:76-99 | the traded quantity plus the quantity left equals the starting quantity, and the taker's remaining went down by exactly the traded quantity |
| Book.MatchFills | internal/engine/book.go:78-99 | there are at most as many trades as resting orders; the i-th trade fills the i-th resting order, which crosses the taker's price, at that order's price, for the minimum of what the taker still has and the maker's remaining, with the i-th consecutive ids |
| Book.MatchTradeFields | internal/engine/book.go:162-174 | each trade is at its maker's price, names the maker's id and instrument and the taker's id and side, carries the clock reading for its own trade id, and has trade and execution ids counting up by one from the counters |
| Book.MatchLeavesSuffix | internal/engine/book.go:96-104 | after k trades the opposite side is its first k orders removed, in unchanged order, unless the last maker was only partly filled; then it stays at the head with its remaining reduced by that fill, and the taker is exhausted |
| Book.MatchStops | internal/engine/book.go:78-111 | the loop stops only when the taker is exhausted, the opposite side is empty, its head does not cross, or an IOC taker has a remainder after one fill; IOC trades at most once; Market stops only when exhausted or out of makers; some trade happens iff the taker has a quantity and the opposite head crosses |
| Book.MatchPositive | internal/engine/book.go:88-104 | from a non-negative quantity, against makers with positive remainings: every trade quantity is positive, the quantity left lies between zero and the start, and every order left on the side still has a positive remaining |
| Book.MatchesLikeLimit | internal/engine/book.go:106-116 | a FOK or PostOnly taker produces the same trades, opposite side and quantity left as the same order typed Limit |
| Book.FokFillsPartially | internal/engine/book.go:106-116 | a FOK taker facing one crossing maker smaller than itself trades that maker's whole remaining, keeps the difference, and does not rest |
| Book.MarketRemainderRests | internal/engine/book.go:78-116 | a Market taker rests exactly when something is left, and then the opposite side is empty |
| Book.ProcessKeepsValid | internal/engine/book.go:96-116 | for an order whose remaining equals its quantity, against makers with positive remainings, the side left behind has positive remainings, and a resting taker has a positive remaining |
| Book.OrderBook.constructor | internal/engine/book.go:46-58 | both sides and the trade log start empty |
| Book.OrderBook.GetBestBid | internal/engine/book.go:240-247 | None exactly when there are no bids; otherwise the head of the bids |
| Book.OrderBook.GetBestAsk | internal/engine/book.go:249-256 | None exactly when there are no asks; otherwise the head of the asks |
| Book.OrderBook.GetMarketDepth | internal/engine/book.go:258-266 | whatever the book holds, both level lists are empty and non-nil, and the statistics are zero |
| Book.OrderBook.AddBid | internal/engine/book.go:176-199 | the bids become the old bids followed by the order; nothing else changes |
| Book.OrderBook.AddAsk | internal/engine/book.go:201-230 | the asks become the old asks followed by the order; nothing else changes |
| Book.OrderBook.ExecuteFill | internal/engine/book.go:88-104 | one fill of the head: the quantity is min(quantity to match, maker remaining) at the maker's price; one trade with the next ids is appended to the log; the local quantity, the taker and the maker all go down by the fill; an exhausted maker is removed; both counters advance by one |
| Book.OrderBook.MatchLoop | internal/engine/book.go:76-111 | the loop ends with exactly the opposite side, taker and quantity left that Match describes; the log gains Match's trades in order; each counter advances by the number of trades |
| Book.OrderBook.ProcessBuyOrder | internal/engine/book.go:75-117 | the asks become what Match leaves; the trades are appended; the bids are unchanged except that a remainder of a non-IOC, non-FOK order is appended at the tail; the counters advance by the number of trades; if every resting order had a positive remaining and the order's remaining equals its quantity, every resting order still does |
| Book.OrderBook.ProcessSellOrder | internal/engine/book.go:119-160 | the same against the bids, with a remainder appended at the tail of the asks |
| Book.OrderBook.ProcessOrder | internal/engine/book.go:64-73 | a Buy order is processed against the asks, a Sell order against the bids, with the effects above |
| Snapshots.SnapshotManager.constructor | internal/engine/snapshot.go:56-66 | no books, no snapshots, and the sequence counter at zero |
| Snapshots.SnapshotManager.RegisterOrderBook | internal/engine/snapshot.go:69-84 | the books map becomes the old map with the instrument bound to the book; every other binding is kept; a second registration overwrites the first |
| Snapshots.SnapshotManager.CalculateStats | internal/engine/snapshot.go:143-164 | the totals are the sums of the bid and ask levels' quantities and order counts; spread and mid-price come from both first levels when both sides have one, and are zero otherwise |
| Snapshots.SnapshotManager.TakeSnapshot | internal/engine/snapshot.go:127-140 | the snapshot takes the counter plus one as its sequence and the counter moves there; the instrument and time are stamped; its levels are the market depth's and its statistics describe them, which for the stub means empty levels and zero statistics |
| Snapshots.SnapshotManager.AddFresh | internal/engine/snapshot.go:118-121 | adding a snapshot numbered above every number in the map keeps all numbers distinct and adds exactly one key |
| Snapshots.SnapshotManager.SnapshotOne | internal/engine/snapshot.go:118-121 | one pass of the loop: exactly one instrument still to do is snapshotted, with the counter advanced by one as its sequence number; every snapshot taken before is kept unchanged; all stay fresh and pairwise distinct, and the counter matches the number taken |
| Snapshots.SnapshotManager.SnapshotAll | internal/engine/snapshot.go:116-121 | one fresh snapshot per instrument of the books map, with pairwise distinct sequences between the old and new counter values; the counter advances by the number of instruments |
| Snapshots.SnapshotManager.TakeSnapshots | internal/engine/snapshot.go:112-124 | the published map is replaced by one whose keys are exactly the registered instruments; each entry is non-nil, of its own instrument, with a sequence above every number issued before; the sequences are pairwise distinct and above all previously published ones |
| Snapshots.SnapshotManager.GetSnapshot | internal/engine/snapshot.go:167-185 | (None, false) for an instrument without a published entry; otherwise found, and equal in every field to the published snapshot |
| Snapshots.SnapshotManager.GetAllSnapshots | internal/engine/snapshot.go:188-207 | the keys are exactly the instruments with a non-nil published entry, each mapped to a snapshot equal to that entry |
| Matching.MatchingEngine.constructor | internal/engine/matching.go:17-24 | an empty registry, drawing ids from the id source it is given, since the counters are process-wide globals |
| Matching.MatchingEngine.RegisterOrderBook | internal/engine/matching.go:26-28 | the instrument is bound to the book, overwriting any earlier binding; other instruments are unchanged |
| Matching.MatchingEngine.GetOrderBook | internal/engine/matching.go:77-87 | the bound book for a registered instrument, None otherwise |
| Matching.MatchingEngine.MatchOrder | internal/engine/matching.go:72-75 | an order for an unregistered instrument is reported and changes nothing; otherwise only the book registered for its instrument changes, exactly as processing the order there describes, and the counters advance by the number of trades |

## Left out

- Concurrency is not modelled, and each of these mechanisms becomes one sequential update:
  - channels and goroutines (`AddOrder`, `ProcessOrders`, `Start`, `SubmitOrder`, `processOrders`, `processTrades`);
  - the CAS loops in `AddBid`, `AddAsk` and `RegisterOrderBook`;
  - the atomic pointer swaps and `PaddedUint64`.
- `Start`, `Stop`, `snapshotLoop` and the ticker are timing plumbing and are left out.
- `broadCastTrade` has an empty body and is left out. `processTrades` (`matching.go:55-65`) ranges over the registry once, when `Start` runs. It drains into `broadCastTrade` the `processedTrades` of the books registered at that moment only. The per-book `trades` log models `processedTrades`.
- The engine-level `trades` channel (`matching.go:13`, `matching.go:21`), which `GetTradesChannel` exposes (`matching.go:39-41`), is never sent on. The engine-level trade stream therefore stays empty, and the model has no counterpart for it.
- Floating point is not modelled; prices and quantities are integer ticks.
  - A Market order's price is NaN in the source (`order.go:40`). A rested Market order is therefore a NaN-priced maker there.
  - In the source, the break tests (`book.go:84`, `book.go:128`) are false against NaN, so every taker crosses such a maker, at a NaN fill price, and `GetDepth` never counts it.
  - In the model, a rested Market order keeps an ordinary integer price. It crosses, and is counted, only by that price.
- Models.Validate: does not model the NaN test on a Limit order's price, because integer ticks have no NaN.
- Fixed-width integers are unbounded in the model.
- Counters.IdSource.GenerateTradeID: does not model uint64 wrap-around, because integers are unbounded.
- Counters.IdSource.NextExecutionID: does not model uint64 wrap-around, because integers are unbounded.
- Book.GetDepth: returns an unbounded integer where the source returns an `int32` count.
- Book.GetTotalVolume: sums unbounded integers where the source sums `int64` node quantities. It also does not model the float-to-`int64` truncation made when a node is created.
- Snapshots.SnapshotManager.TakeSnapshots: one clock reading `now` stamps all snapshots of one cycle, because time is a parameter; the source reads the clock once per snapshot.
- Snapshots.SnapshotManager.GetSnapshot: requires a published entry to be non-nil, because the source dereferences it. The manager never publishes nil.
- `RegisterOrderBook` of the engine and of the snapshot manager takes a non-null book. The source accepts a nil `*OrderBook`; `getOrderBook` then returns it, and `matchOrder` dereferences nil (`matching.go:74`).
- Matching.MatchingEngine.MatchOrder: reports `UnknownInstrument` for an unregistered instrument. The source dereferences the nil book it gets from `getOrderBook` instead.
- `TakeSnapshots` reads the books map through an `unsafe` cast to a map of book values (`snapshot.go:114`), while `RegisterOrderBook` stores book pointers (`snapshot.go:72`). The model treats both as the same instrument-to-book map.
- `GetMarketDepth` is modelled as the stub it is: empty level lists whatever the book holds. No aggregation is invented, so snapshots always have empty levels and zero statistics. The `level` argument only sets a capacity, which the model ignores.
- `MarshalBinary` and `UnmarshalBinary` are thin JSON wrappers and are left out.
- Order fields the core never reads are left out: account, timestamps, client id, tags and margin parameters. `OrderEvent` and `SizeOfOrder` are left out too.
- The `Trade` datatype leaves out `Fee`, `FeeCurrency` and `Tags` (`trade.go:12`, `trade.go:17`, `trade.go:18`). `createTradeDraft` leaves them at their zero values.
- Aliasing is not captured.
  - The source updates the taker and the maker through pointers shared with the caller. The model returns the reduced taker and stores the reduced maker in the side.
  - It does not model other holders of those pointers seeing the change.
- The per-book order queue, the engine's order queue and `SubmitOrder` are collapsed into the single call `MatchOrder`, which processes the order at once.
  - In the program as wired, nothing starts a book's `ProcessOrders` loop: `book.go:64` only defines it, and `main.go:65` starts only the engine. An order that `matchOrder` queues on its book (`matching.go:74`) therefore waits there and is never matched.
  - The model processes that order as the book's loop would, were it running.
- The remaining source files are outside this model:
  - `internal/protocol/grpc_server.go`, `internal/config/config.go`, `internal/util/logger.go` and `main.go`;
  - `internal/models/trade.go`, which is used only as the `Trade` datatype.
