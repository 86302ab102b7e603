/**
 * The snapshot value types of internal/engine/snapshot.go (price levels,
 * statistics, the snapshot record) and the pure readers over them:
 * copyPriceLevels, GetPriceLevels, GetBestPrice, and the folds that
 * calculateStats is specified by.
 */
module Levels {
  import opened Models

  /** One aggregated price level: its price, total quantity and number of orders. */
  datatype PriceLevel = PriceLevel(price: int, quantity: int, orders: int)

  /**
   * A Go slice of price levels. Go tells a nil slice apart from an empty
   * one, and copyPriceLevels preserves that difference, so the model keeps it.
   */
  datatype LevelSlice = NilSlice | Slice(items: seq<PriceLevel>)
  {
    /** The elements; a nil slice has none, as `len(nil) == 0` in Go. */
    function Elems(): seq<PriceLevel>
    {
      if NilSlice? then [] else items
    }
  }

  /**
   * Book statistics. `spread` and `midPrice` are zero unless both sides have
   * a level; the mid-price is a half-tick quantity, hence `real`.
   */
  datatype SnapshotStats = SnapshotStats(
    totalBidQuantity: int,
    totalAskQuantity: int,
    bidOrders: int,
    askOrders: int,
    spread: int,
    midPrice: real)

  /** A point-in-time view of one instrument's book. */
  datatype OrderBookSnapshot = OrderBookSnapshot(
    instrument: string,
    sequence: nat,
    timestamp: int,
    bids: LevelSlice,
    asks: LevelSlice,
    stats: SnapshotStats)

  /** The statistics of a book with no levels on either side. */
  const ZeroStats := SnapshotStats(0, 0, 0, 0, 0, 0.0)

  /** Sum of the levels' quantities. */
  function SumQuantity(levels: seq<PriceLevel>): int
  {
    if levels == [] then 0
    else SumQuantity(levels[..|levels| - 1]) + levels[|levels| - 1].quantity
  }

  /** Sum of the levels' order counts. */
  function SumOrders(levels: seq<PriceLevel>): int
  {
    if levels == [] then 0
    else SumOrders(levels[..|levels| - 1]) + levels[|levels| - 1].orders
  }

  /**
   * `stats` is what calculateStats derives from the two level lists: totals
   * are sums over each side; spread and mid-price come from the first level
   * of each side when both are non-empty, and are zero otherwise.
   */
  predicate DescribesLevels(stats: SnapshotStats, bids: seq<PriceLevel>, asks: seq<PriceLevel>)
  {
    && stats.totalBidQuantity == SumQuantity(bids)
    && stats.bidOrders == SumOrders(bids)
    && stats.totalAskQuantity == SumQuantity(asks)
    && stats.askOrders == SumOrders(asks)
    && (if |bids| > 0 && |asks| > 0 then
          && stats.spread == asks[0].price - bids[0].price
          && 2.0 * stats.midPrice == (bids[0].price + asks[0].price) as real
        else
          stats.spread == 0 && stats.midPrice == 0.0)
  }

  /** For given level lists the statistics are determined uniquely. */
  lemma DescribesLevelsUnique(s1: SnapshotStats, s2: SnapshotStats, bids: seq<PriceLevel>, asks: seq<PriceLevel>)
    requires DescribesLevels(s1, bids, asks) && DescribesLevels(s2, bids, asks)
    ensures s1 == s2
  {
  }

  /** Empty level lists are described by the all-zero statistics and by nothing else. */
  lemma ZeroStatsForEmptyLevels(stats: SnapshotStats)
    ensures DescribesLevels(stats, [], []) <==> stats == ZeroStats
  {
  }

  /** copyPriceLevels: nil stays nil; otherwise a fresh slice with the same elements in the same order. */
  method CopyPriceLevels(levels: LevelSlice) returns (copy: LevelSlice)
    ensures copy.NilSlice? <==> levels.NilSlice?
    ensures |copy.Elems()| == |levels.Elems()|
    ensures forall i :: 0 <= i < |levels.Elems()| ==> copy.Elems()[i] == levels.Elems()[i]
    ensures copy == levels
  {
    if levels.NilSlice? {
      return NilSlice;
    }
    var items := levels.items;
    var a := new PriceLevel[|items|];
    for i := 0 to |items|
      invariant a[..i] == items[..i]
    {
      a[i] := items[i];
    }
    assert a[..] == a[..|items|];
    copy := Slice(a[..]);
  }

  /** GetPriceLevels: the bid levels for Buy, the ask levels for any other side. */
  function GetPriceLevels(s: OrderBookSnapshot, side: OrderSide): (levels: LevelSlice)
    ensures side == Buy ==> levels == s.bids
    ensures side != Buy ==> levels == s.asks
  {
    if side == Buy then s.bids else s.asks
  }

  /** GetBestPrice: the price of the side's first level, or (0, false) when it has none. */
  function GetBestPrice(s: OrderBookSnapshot, side: OrderSide): (r: (int, bool))
    ensures r.1 <==> |GetPriceLevels(s, side).Elems()| > 0
    ensures r.1 ==> r.0 == GetPriceLevels(s, side).Elems()[0].price
    ensures !r.1 ==> r.0 == 0
  {
    var levels := GetPriceLevels(s, side).Elems();
    if |levels| == 0 then (0, false) else (levels[0].price, true)
  }

  /**
   * A snapshot whose statistics describe its own levels has a spread equal to
   * best ask minus best bid, and a mid-price halfway between them, exactly
   * when both best prices exist; otherwise both are zero.
   */
  lemma StatsAgreeWithBestPrices(s: OrderBookSnapshot)
    requires DescribesLevels(s.stats, s.bids.Elems(), s.asks.Elems())
    ensures GetBestPrice(s, Buy).1 && GetBestPrice(s, Sell).1 ==>
              && s.stats.spread == GetBestPrice(s, Sell).0 - GetBestPrice(s, Buy).0
              && 2.0 * s.stats.midPrice == (GetBestPrice(s, Buy).0 + GetBestPrice(s, Sell).0) as real
    ensures !(GetBestPrice(s, Buy).1 && GetBestPrice(s, Sell).1) ==>
              s.stats.spread == 0 && s.stats.midPrice == 0.0
  {
  }
}
