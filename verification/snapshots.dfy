/**
 * The snapshot manager of internal/engine/snapshot.go: the registered books,
 * the published snapshots and the global sequence counter. The source swaps
 * whole maps through atomic pointers; here each swap is one assignment to
 * the corresponding field. A published entry is a Go pointer, so it may be
 * nil (None); the manager itself only ever publishes non-nil snapshots.
 */
module Snapshots {
  import opened Wrappers
  import opened Levels
  import Book

  class SnapshotManager {
    var orderBooks: map<string, Book.OrderBook>
    var snapshots: map<string, Option<OrderBookSnapshot>>
    var sequenceID: nat

    /** NewSnapshotManager: no books, no snapshots, the counter at zero. */
    constructor ()
      ensures orderBooks == map[] && snapshots == map[] && sequenceID == 0
    {
      orderBooks := map[];
      snapshots := map[];
      sequenceID := 0;
    }

    /** Every published snapshot exists and carries a sequence number already handed out. */
    predicate Valid()
      reads this
    {
      forall inst :: inst in snapshots ==>
        snapshots[inst].Some? && snapshots[inst].value.sequence <= sequenceID
    }

    /**
     * A snapshot taken by one TakeSnapshots call for `inst` at time `now`,
     * whose sequence number lies in (lo, hi]; the levels come from the
     * market-depth stub, so they are empty and the statistics are zero.
     */
    static predicate Fresh(entry: Option<OrderBookSnapshot>, inst: string, lo: nat, hi: nat, now: int)
    {
      && entry.Some?
      && lo < entry.value.sequence <= hi
      && entry.value.instrument == inst
      && entry.value.timestamp == now
      && entry.value.bids == Slice([])
      && entry.value.asks == Slice([])
      && entry.value.stats == ZeroStats
    }

    /** No two instruments' snapshots share a sequence number. */
    static predicate DistinctSequences(m: map<string, Option<OrderBookSnapshot>>)
    {
      forall i, j :: i in m && j in m && i != j && m[i].Some? && m[j].Some? ==>
        m[i].value.sequence != m[j].value.sequence
    }

    /** RegisterOrderBook: the books map with `instrument` bound to `book`; nothing else changes. */
    method RegisterOrderBook(instrument: string, book: Book.OrderBook)
      modifies this`orderBooks
      ensures orderBooks == old(orderBooks)[instrument := book]
      ensures forall inst :: inst in old(orderBooks) && inst != instrument ==>
                inst in orderBooks && orderBooks[inst] == old(orderBooks)[inst]
    {
      orderBooks := orderBooks[instrument := book];
    }

    /**
     * calculateStats: totals are the sums over each side's levels; spread and
     * mid-price come from the first level of each side when both have one.
     */
    method CalculateStats(depth: OrderBookSnapshot) returns (stats: SnapshotStats)
      ensures DescribesLevels(stats, depth.bids.Elems(), depth.asks.Elems())
    {
      var bids, asks := depth.bids.Elems(), depth.asks.Elems();
      var totalBid, bidOrders := 0, 0;
      for i := 0 to |bids|
        invariant totalBid == SumQuantity(bids[..i]) && bidOrders == SumOrders(bids[..i])
      {
        assert bids[..i + 1][..i] == bids[..i];
        totalBid := totalBid + bids[i].quantity;
        bidOrders := bidOrders + bids[i].orders;
      }
      assert bids[..|bids|] == bids;
      var totalAsk, askOrders := 0, 0;
      for i := 0 to |asks|
        invariant totalAsk == SumQuantity(asks[..i]) && askOrders == SumOrders(asks[..i])
      {
        assert asks[..i + 1][..i] == asks[..i];
        totalAsk := totalAsk + asks[i].quantity;
        askOrders := askOrders + asks[i].orders;
      }
      assert asks[..|asks|] == asks;
      var spread, midPrice := 0, 0.0;
      if |bids| > 0 && |asks| > 0 {
        var bestBid, bestAsk := bids[0].price, asks[0].price;
        spread := bestAsk - bestBid;
        midPrice := (bestBid + bestAsk) as real / 2.0;
      }
      stats := SnapshotStats(totalBid, totalAsk, bidOrders, askOrders, spread, midPrice);
    }

    /**
     * takeSnapshot: the book's market depth with statistics over it, stamped
     * with the next sequence number, which the counter advances to.
     */
    method TakeSnapshot(instrument: string, book: Book.OrderBook, now: int) returns (s: OrderBookSnapshot)
      modifies this`sequenceID
      ensures s.sequence == old(sequenceID) + 1 && sequenceID == s.sequence
      ensures s.instrument == instrument && s.timestamp == now
      ensures s.bids == book.GetMarketDepth(100).bids && s.asks == book.GetMarketDepth(100).asks
      ensures DescribesLevels(s.stats, s.bids.Elems(), s.asks.Elems())
      ensures s.bids == Slice([]) && s.asks == Slice([]) && s.stats == ZeroStats
    {
      var depth := book.GetMarketDepth(100);
      var stats := CalculateStats(depth);
      ZeroStatsForEmptyLevels(stats);
      sequenceID := sequenceID + 1;
      s := OrderBookSnapshot(instrument, sequenceID, now, depth.bids, depth.asks, stats);
    }

    /** Every entry of `m` is a snapshot of its own instrument taken at `now` with a sequence number in (lo, hi]. */
    static predicate AllFresh(m: map<string, Option<OrderBookSnapshot>>, lo: nat, hi: nat, now: int)
    {
      forall inst :: inst in m ==> Fresh(m[inst], inst, lo, hi, now)
    }

    /**
     * Adding a snapshot numbered one above every number in the map keeps
     * the entries fresh and their numbers distinct, and adds one key.
     */
    static lemma AddFresh(m: map<string, Option<OrderBookSnapshot>>, inst: string, s: OrderBookSnapshot,
                          lo: nat, hi: nat, now: int)
      requires inst !in m && AllFresh(m, lo, hi, now) && DistinctSequences(m)
      requires Fresh(Some(s), inst, lo, hi + 1, now) && s.sequence == hi + 1
      ensures AllFresh(m[inst := Some(s)], lo, hi + 1, now)
      ensures DistinctSequences(m[inst := Some(s)])
      ensures |m[inst := Some(s)].Keys| == |m.Keys| + 1
    {
      assert m[inst := Some(s)].Keys == m.Keys + {inst};
    }

    /**
     * One pass of the TakeSnapshots loop: snapshot one instrument still to
     * do and add it to `taken`. `lo` is the counter's value before the loop.
     */
    method SnapshotOne(books: map<string, Book.OrderBook>, now: int, ghost lo: nat,
                       taken: map<string, Option<OrderBookSnapshot>>, todo: set<string>)
      returns (taken': map<string, Option<OrderBookSnapshot>>, todo': set<string>)
      requires todo != {} && todo <= books.Keys && taken.Keys == books.Keys - todo
      requires sequenceID == lo + |taken.Keys| && AllFresh(taken, lo, sequenceID, now) && DistinctSequences(taken)
      modifies this`sequenceID
      ensures todo' < todo && taken'.Keys == books.Keys - todo'
      ensures sequenceID == lo + |taken'.Keys| && AllFresh(taken', lo, sequenceID, now) && DistinctSequences(taken')
      ensures |todo'| == |todo| - 1 && sequenceID == old(sequenceID) + 1
      ensures forall inst :: inst in taken ==> inst in taken' && taken'[inst] == taken[inst]
      ensures forall inst :: inst in todo - todo' ==> taken'[inst].Some? && taken'[inst].value.sequence == sequenceID
    {
      var instrument :| instrument in todo;
      var s := TakeSnapshot(instrument, books[instrument], now);
      AddFresh(taken, instrument, s, lo, sequenceID - 1, now);
      taken' := taken[instrument := Some(s)];
      todo' := todo - {instrument};
    }

    /**
     * The loop of TakeSnapshots: one snapshot per instrument of `books`,
     * each with its own new sequence number above the counter's old value.
     */
    method SnapshotAll(books: map<string, Book.OrderBook>, now: int)
      returns (taken: map<string, Option<OrderBookSnapshot>>)
      modifies this`sequenceID
      ensures taken.Keys == books.Keys
      ensures sequenceID == old(sequenceID) + |books.Keys|
      ensures AllFresh(taken, old(sequenceID), sequenceID, now)
      ensures DistinctSequences(taken)
    {
      taken := map[];
      var todo := books.Keys;
      ghost var lo := sequenceID;
      while todo != {}
        invariant todo <= books.Keys && taken.Keys == books.Keys - todo
        invariant sequenceID == lo + |taken.Keys| && AllFresh(taken, lo, sequenceID, now) && DistinctSequences(taken)
        decreases todo
      {
        taken, todo := SnapshotOne(books, now, lo, taken, todo);
      }
    }

    /**
     * TakeSnapshots: publish a fresh map with one snapshot per registered
     * instrument, each with its own new sequence number. The numbers are
     * pairwise distinct and above every number handed out before, so the
     * published sequences keep increasing from one cycle to the next.
     */
    method TakeSnapshots(now: int)
      modifies this`snapshots, this`sequenceID
      ensures snapshots.Keys == orderBooks.Keys
      ensures sequenceID == old(sequenceID) + |orderBooks.Keys|
      ensures AllFresh(snapshots, old(sequenceID), sequenceID, now)
      ensures DistinctSequences(snapshots)
      ensures Valid()
      ensures old(Valid()) ==> forall i, j :: i in old(snapshots) && j in snapshots ==>
                old(snapshots)[i].value.sequence < snapshots[j].value.sequence
    {
      var newSnapshots := SnapshotAll(orderBooks, now);
      snapshots := newSnapshots;
    }

    /**
     * GetSnapshot: (None, false) for an instrument without a published
     * entry; otherwise a copy equal to the published snapshot in every
     * field. The source dereferences the entry, so a nil entry is excluded.
     */
    method GetSnapshot(instrument: string) returns (snapshot: Option<OrderBookSnapshot>, found: bool)
      requires instrument in snapshots ==> snapshots[instrument].Some?
      ensures found <==> instrument in snapshots
      ensures !found ==> snapshot == None
      ensures found ==> snapshot == snapshots[instrument]
    {
      if instrument !in snapshots {
        return None, false;
      }
      var published := snapshots[instrument].value;
      var bids := CopyPriceLevels(published.bids);
      var asks := CopyPriceLevels(published.asks);
      snapshot := Some(OrderBookSnapshot(published.instrument, published.sequence, published.timestamp,
                                         bids, asks, published.stats));
      found := true;
    }

    /**
     * GetAllSnapshots: the instruments whose published entry is non-nil,
     * each mapped to a copy equal to that entry.
     */
    method GetAllSnapshots() returns (result: map<string, OrderBookSnapshot>)
      ensures result.Keys == set inst | inst in snapshots && snapshots[inst].Some?
      ensures forall inst :: inst in result ==> Some(result[inst]) == snapshots[inst]
    {
      var published := snapshots;
      result := map[];
      var todo := published.Keys;
      while todo != {}
        invariant todo <= published.Keys
        invariant result.Keys == set inst | inst in published.Keys - todo && published[inst].Some?
        invariant forall inst :: inst in result ==> Some(result[inst]) == published[inst]
        decreases |todo|
      {
        var instrument :| instrument in todo;
        var entry := published[instrument];
        if entry.Some? {
          var s := entry.value;
          var bids := CopyPriceLevels(s.bids);
          var asks := CopyPriceLevels(s.asks);
          result := result[instrument := OrderBookSnapshot(s.instrument, s.sequence, s.timestamp, bids, asks, s.stats)];
        }
        todo := todo - {instrument};
      }
    }
  }
}
