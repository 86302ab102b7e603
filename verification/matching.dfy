/**
 * The routing part of internal/engine/matching.go: the instrument-to-book
 * registry and the delivery of an order to its book. The source queues an
 * order on an engine channel and then on the book's channel, where the
 * book's ProcessOrders loop picks it up; here delivery and processing are
 * one sequential call. The trade and execution counters, package globals
 * in the source, are one id source that the engine is given. The clock is
 * a parameter: `clock(t)` is the time read while the trade with id t is
 * drafted.
 */
module Matching {
  import opened Wrappers
  import opened Models
  import opened Counters
  import Book

  /** Why an order could not be delivered. */
  datatype RoutingError = UnknownInstrument(instrument: string)

  class MatchingEngine {
    var orderBooks: map<string, Book.OrderBook>
    const ids: IdSource

    /**
     * NewMatchingEngine: an empty registry. The counters are package
     * globals, shared by every engine and book of the process, so the id
     * source is passed in rather than created here.
     */
    constructor (ids: IdSource)
      ensures orderBooks == map[] && this.ids == ids
    {
      orderBooks := map[];
      this.ids := ids;
    }

    /** RegisterOrderBook: bind `instrument` to `book`, replacing any earlier binding. */
    method RegisterOrderBook(instrument: string, book: Book.OrderBook)
      modifies this`orderBooks
      ensures orderBooks == old(orderBooks)[instrument := book]
      ensures forall inst :: inst in old(orderBooks) && inst != instrument ==>
                inst in orderBooks && orderBooks[inst] == old(orderBooks)[inst]
    {
      orderBooks := orderBooks[instrument := book];
    }

    /** getOrderBook: the book bound to `instrument`, or None (Go's nil) when there is none. */
    function GetOrderBook(instrument: string): (r: Option<Book.OrderBook>)
      reads this
      ensures r.Some? <==> instrument in orderBooks
      ensures r.Some? ==> r.value == orderBooks[instrument]
    {
      if instrument in orderBooks then Some(orderBooks[instrument]) else None
    }

    /**
     * matchOrder followed by the book's processing of the order. The order
     * reaches only the book registered for its instrument, which processes
     * it as ProcessOrder does; an unregistered instrument is reported
     * (the source would send to a nil book) and nothing changes.
     */
    method MatchOrder(order: Order, clock: nat -> int) returns (outcome: Outcome<RoutingError>)
      modifies orderBooks.Values, ids
      ensures outcome == Fail(UnknownInstrument(order.instrument)) <==> order.instrument !in orderBooks
      ensures outcome.Pass? <==> order.instrument in orderBooks
      ensures order.instrument !in orderBooks ==>
                unchanged(ids) && forall b :: b in orderBooks.Values ==> unchanged(b)
      ensures order.instrument in orderBooks ==>
                var book := orderBooks[order.instrument];
                var dir := order.side;
                var r := Book.Match(dir, order, if dir == Buy then old(book.asks) else old(book.bids), order.quantity,
                                    old(ids.tradeIDCounter), old(ids.executionCounter), clock);
                && book.trades == old(book.trades) + r.trades
                && (dir == Buy ==> book.asks == r.opposite
                                   && book.bids == old(book.bids) + (if Book.Rests(order, r.remainingQty) then [r.taker] else []))
                && (dir == Sell ==> book.bids == r.opposite
                                    && book.asks == old(book.asks) + (if Book.Rests(order, r.remainingQty) then [r.taker] else []))
                && ids.tradeIDCounter == old(ids.tradeIDCounter) + |r.trades|
                && ids.executionCounter == old(ids.executionCounter) + |r.trades|
                && (forall b :: b in orderBooks.Values && b != book ==> unchanged(b))
    {
      var found := GetOrderBook(order.instrument);
      if found.None? {
        return Fail(UnknownInstrument(order.instrument));
      }
      var book := found.value;
      var _ := book.ProcessOrder(order, ids, clock);
      outcome := Pass;
    }
  }
}
