/**
 * The per-instrument order book of internal/engine/book.go.
 *
 * A side is the sequence of resting orders from head to tail. Orders are
 * appended at the tail with no price ordering, so the "best" order of a side
 * is simply its earliest arrival. In the source no maker ever leaves its
 * side: removeBid/removeAsk are empty. Removal is this model's choice: the
 * maker those calls receive is always the head of the side, so an exhausted
 * maker is removed by dropping the head (without removal the source loop
 * would keep matching the same maker for a zero fill).
 */
module Book {
  import opened Wrappers
  import opened Models
  import opened Counters
  import opened Levels

  // ---------------------------------------------------------------------
  // Reading a side

  /** The head of a side (GetBestBid/GetBestAsk), or None on an empty side. */
  function Head(side: seq<Order>): (r: Option<Order>)
    ensures r.Some? <==> |side| > 0
    ensures r.Some? ==> r.value == side[0]
  {
    if |side| == 0 then None else Some(side[0])
  }

  /** Appending never changes the head of a non-empty side: the best order is the earliest arrival. */
  lemma HeadAfterAppend(side: seq<Order>, o: Order)
    ensures Head(side + [o]) == if |side| == 0 then Some(o) else Head(side)
  {
  }

  /** The prices of a side's orders, head to tail. */
  function Prices(side: seq<Order>): (ps: seq<int>)
    ensures |ps| == |side|
  {
    seq(|side|, i requires 0 <= i < |side| => side[i].price)
  }

  /** OrderSide.GetDepth: the number of resting orders whose price equals `price`. */
  method GetDepth(side: seq<Order>, price: int) returns (count: int)
    ensures count == multiset(Prices(side))[price]
  {
    count := 0;
    var i := 0;
    while i < |side|
      invariant 0 <= i <= |side|
      invariant count == multiset(Prices(side[..i]))[price]
    {
      assert Prices(side[..i + 1]) == Prices(side[..i]) + [side[i].price];
      if side[i].price == price {
        count := count + 1;
      }
      i := i + 1;
    }
    assert side[..i] == side;
  }

  /**
   * The volume resting at `price`. A node stores the order's original
   * quantity and never updates it, so this sums `quantity`, not `remaining`.
   */
  function Volume(side: seq<Order>, price: int): int
  {
    if side == [] then 0
    else
      var last := side[|side| - 1];
      Volume(side[..|side| - 1], price) + (if last.price == price then last.quantity else 0)
  }

  /** OrderSide.GetTotalVolume: the summed node quantities at `price`. */
  method GetTotalVolume(side: seq<Order>, price: int) returns (volume: int)
    ensures volume == Volume(side, price)
  {
    volume := 0;
    var i := 0;
    while i < |side|
      invariant 0 <= i <= |side|
      invariant volume == Volume(side[..i], price)
    {
      assert side[..i + 1][..i] == side[..i];
      if side[i].price == price {
        volume := volume + side[i].quantity;
      }
      i := i + 1;
    }
    assert side[..i] == side;
  }

  /** Volume distributes over concatenation of sides. */
  lemma {:induction false} VolumeAppend(s: seq<Order>, t: seq<Order>, price: int)
    ensures Volume(s + t, price) == Volume(s, price) + Volume(t, price)
    decreases |t|
  {
    if t == [] {
      assert s + t == s;
    } else {
      var t' := t[..|t| - 1];
      assert (s + t)[..|s + t| - 1] == s + t';
      VolumeAppend(s, t', price);
    }
  }

  /**
   * On a side whose orders all have a positive quantity, the volume at a
   * price is at least the depth there, and is zero exactly when the depth is.
   */
  lemma {:induction false} VolumeCoversDepth(side: seq<Order>, price: int)
    requires forall i :: 0 <= i < |side| ==> side[i].quantity > 0
    ensures Volume(side, price) >= multiset(Prices(side))[price]
    ensures Volume(side, price) == 0 <==> multiset(Prices(side))[price] == 0
  {
    if side != [] {
      var init := side[..|side| - 1];
      assert Prices(side) == Prices(init) + [side[|side| - 1].price];
      VolumeCoversDepth(init, price);
    }
  }

  // ---------------------------------------------------------------------
  // One fill

  /** The price test of the loop: a Market taker always crosses; otherwise a Buy needs price >= maker price, a Sell price <= maker price. */
  predicate Crosses(dir: OrderSide, taker: Order, maker: Order)
  {
    taker.orderType == Market ||
    (if dir == Buy then !(taker.price < maker.price) else !(taker.price > maker.price))
  }

  /**
   * The price test, both ways: a Market taker crosses any maker; a Limit,
   * IOC, FOK or PostOnly buyer crosses exactly the makers priced at or
   * below its price, and such a seller exactly those at or above it.
   */
  lemma CrossesTest(dir: OrderSide, taker: Order, maker: Order)
    ensures taker.orderType == Market ==> Crosses(dir, taker, maker)
    ensures taker.orderType != Market && dir == Buy ==> (Crosses(dir, taker, maker) <==> maker.price <= taker.price)
    ensures taker.orderType != Market && dir == Sell ==> (Crosses(dir, taker, maker) <==> maker.price >= taker.price)
  {
  }

  /**
   * createTradeDraft, with the ids and the clock reading passed in: the
   * maker's id and instrument, the taker's id and side, the fill's price and
   * quantity, the ids and the time.
   */
  function TradeDraft(maker: Order, taker: Order, price: int, qty: int,
                      tradeID: nat, executionID: nat, now: int): Trade
  {
    Trade(tradeID, executionID, price, qty, now, maker.id, taker.id, maker.instrument, taker.side)
  }

  /** The order with `fill` taken off its remaining quantity. */
  function Reduce(o: Order, fill: int): Order
  {
    o.(remaining := o.remaining - fill)
  }

  /** The opposite side after its head was filled by `fill`: the head is removed once exhausted. */
  function AfterFill(opposite: seq<Order>, fill: int): seq<Order>
    requires |opposite| > 0
  {
    var maker := Reduce(opposite[0], fill);
    if maker.remaining <= 0 then opposite[1..] else [maker] + opposite[1..]
  }

  /**
   * The shape of a side after a fill of its head: the head is removed
   * exactly when the fill reaches its remaining quantity; otherwise it stays
   * at the head, the same order with its remaining reduced by the fill. The
   * orders behind the head are untouched and keep their order.
   */
  lemma AfterFillShape(opposite: seq<Order>, fill: int)
    requires |opposite| > 0
    ensures var r := AfterFill(opposite, fill);
            && (|r| == |opposite| - 1 <==> opposite[0].remaining <= fill)
            && r[|r| - (|opposite| - 1)..] == opposite[1..]
            && (|r| == |opposite| ==> r[0] == opposite[0].(remaining := opposite[0].remaining - fill))
            && (opposite[0].remaining <= fill ==> r == opposite[1..])
            && (opposite[0].remaining > fill ==>
                  r == [opposite[0].(remaining := opposite[0].remaining - fill)] + opposite[1..])
  {
  }

  /** A partial fill that leaves the head resting does not change the volume: nodes keep the original quantity. */
  lemma VolumeIgnoresPartialFill(opposite: seq<Order>, fill: int, price: int)
    requires |opposite| > 0 && Reduce(opposite[0], fill).remaining > 0
    ensures Volume(AfterFill(opposite, fill), price) == Volume(opposite, price)
  {
    var rest := opposite[1..];
    VolumeAppend([opposite[0]], rest, price);
    VolumeAppend([Reduce(opposite[0], fill)], rest, price);
    assert opposite == [opposite[0]] + rest;
  }

  // ---------------------------------------------------------------------
  // The matching loop, as a specification

  /** Where the loop ended: the opposite side, the trades emitted, the local remaining quantity, the taker order. */
  datatype MatchResult = MatchResult(opposite: seq<Order>, trades: seq<Trade>, remainingQty: int, taker: Order)

  /**
   * The matching loop of ProcessBuyOrder (dir == Buy, against the asks) and
   * ProcessSellOrder (dir == Sell, against the bids), from a state in which
   * `remainingQty` is still to be matched and the counters stand at
   * `tradeIDs` and `executionIDs`. The clock is read once per trade:
   * `clock(t)` is the time read while the trade with id t is drafted.
   * The loop emits at most one trade per resting order, never lengthens the
   * opposite side and changes nothing about the taker but its remaining.
   */
  function Match(dir: OrderSide, taker: Order, opposite: seq<Order>, remainingQty: int,
                 tradeIDs: nat, executionIDs: nat, clock: nat -> int): (r: MatchResult)
    decreases |opposite|, if remainingQty > 0 then 1 else 0
  {
    if remainingQty <= 0 || |opposite| == 0 || !Crosses(dir, taker, opposite[0]) then
      MatchResult(opposite, [], remainingQty, taker)
    else
      var maker := opposite[0];
      var fill := Min(remainingQty, maker.remaining);
      var trade := TradeDraft(maker, taker, maker.price, fill, tradeIDs + 1, executionIDs + 1, clock(tradeIDs + 1));
      var rest := AfterFill(opposite, fill);
      var taker' := Reduce(taker, fill);
      if taker.orderType == IOC && remainingQty - fill > 0 then
        MatchResult(rest, [trade], remainingQty - fill, taker')
      else
        var r := Match(dir, taker', rest, remainingQty - fill, tradeIDs + 1, executionIDs + 1, clock);
        r.(trades := [trade] + r.trades)
  }

  /** Total quantity of a list of trades. */
  function TradedQuantity(trades: seq<Trade>): int
  {
    if trades == [] then 0 else trades[0].quantity + TradedQuantity(trades[1..])
  }

  /**
   * Conservation: the traded quantity plus what is left equals what the loop
   * started from, and the taker's own remaining went down by exactly the
   * traded quantity (nothing else about the taker changes, its status included).
   */
  lemma {:induction false} MatchConserves(dir: OrderSide, taker: Order, opposite: seq<Order>, remainingQty: int,
                                          tradeIDs: nat, executionIDs: nat, clock: nat -> int)
    ensures var r := Match(dir, taker, opposite, remainingQty, tradeIDs, executionIDs, clock);
            && TradedQuantity(r.trades) + r.remainingQty == remainingQty
            && r.taker == Reduce(taker, TradedQuantity(r.trades))
    decreases |opposite|, if remainingQty > 0 then 1 else 0
  {
    if remainingQty <= 0 || |opposite| == 0 || !Crosses(dir, taker, opposite[0]) {
    } else {
      var fill := Min(remainingQty, opposite[0].remaining);
      if !(taker.orderType == IOC && remainingQty - fill > 0) {
        MatchConserves(dir, Reduce(taker, fill), AfterFill(opposite, fill), remainingQty - fill,
                       tradeIDs + 1, executionIDs + 1, clock);
      }
    }
  }

  /**
   * The i-th of `trades` is the fill of the i-th resting order of `opposite`:
   * that order crossed the taker's price, and the trade is the draft for it
   * at its price, for the minimum of what the taker still had to match and
   * the maker's remaining, with the i-th consecutive trade and execution ids.
   */
  predicate FillAt(dir: OrderSide, taker: Order, opposite: seq<Order>, remainingQty: int,
                   tradeIDs: nat, executionIDs: nat, clock: nat -> int, trades: seq<Trade>, i: nat)
    requires i < |trades| && i < |opposite|
  {
    && Crosses(dir, taker, opposite[i])
    && trades[i] == TradeDraft(opposite[i], taker, opposite[i].price,
                               Min(remainingQty - TradedQuantity(trades[..i]), opposite[i].remaining),
                               tradeIDs + i + 1, executionIDs + i + 1, clock(tradeIDs + i + 1))
  }

  /**
   * A fill of the i-th order after the head, as seen from the rest of the
   * side after the head was exhausted, is the fill of the (i+1)-th order as
   * seen from the whole side.
   */
  lemma FillAtShift(dir: OrderSide, taker: Order, opposite: seq<Order>, remainingQty: int,
                    tradeIDs: nat, executionIDs: nat, clock: nat -> int, fill: int, trade: Trade, later: seq<Trade>, i: nat)
    requires |opposite| > 0 && fill == Min(remainingQty, opposite[0].remaining)
    requires trade == TradeDraft(opposite[0], taker, opposite[0].price, fill, tradeIDs + 1, executionIDs + 1, clock(tradeIDs + 1))
    requires i < |later| && i + 1 < |opposite|
    requires FillAt(dir, Reduce(taker, fill), opposite[1..], remainingQty - fill,
                    tradeIDs + 1, executionIDs + 1, clock, later, i)
    ensures FillAt(dir, taker, opposite, remainingQty, tradeIDs, executionIDs, clock, [trade] + later, i + 1)
  {
    var trades := [trade] + later;
    assert trades[..i + 1] == [trade] + later[..i];
    assert TradedQuantity(trades[..i + 1]) == fill + TradedQuantity(later[..i]);
  }

  /**
   * The fills, one by one: there are at most as many trades as resting
   * orders, and the i-th trade is the fill of the i-th resting order of the
   * opposite side (FIFO; see FillAt).
   */
  lemma {:induction false} MatchFills(dir: OrderSide, taker: Order, opposite: seq<Order>, remainingQty: int,
                                      tradeIDs: nat, executionIDs: nat, clock: nat -> int)
    ensures var r := Match(dir, taker, opposite, remainingQty, tradeIDs, executionIDs, clock);
            && |r.trades| <= |opposite|
            && forall i: nat :: i < |r.trades| ==>
                 FillAt(dir, taker, opposite, remainingQty, tradeIDs, executionIDs, clock, r.trades, i)
    decreases |opposite|, if remainingQty > 0 then 1 else 0
  {
    var r := Match(dir, taker, opposite, remainingQty, tradeIDs, executionIDs, clock);
    if remainingQty <= 0 || |opposite| == 0 || !Crosses(dir, taker, opposite[0]) {
    } else {
      var fill := Min(remainingQty, opposite[0].remaining);
      var trade := TradeDraft(opposite[0], taker, opposite[0].price, fill, tradeIDs + 1, executionIDs + 1, clock(tradeIDs + 1));
      var rest := AfterFill(opposite, fill);
      var taker' := Reduce(taker, fill);
      assert r.trades[..0] == [];
      assert FillAt(dir, taker, opposite, remainingQty, tradeIDs, executionIDs, clock, r.trades, 0);
      if taker.orderType == IOC && remainingQty - fill > 0 {
        assert r == MatchResult(rest, [trade], remainingQty - fill, taker');
      } else {
        var r' := Match(dir, taker', rest, remainingQty - fill, tradeIDs + 1, executionIDs + 1, clock);
        assert r == r'.(trades := [trade] + r'.trades);
        MatchFills(dir, taker', rest, remainingQty - fill, tradeIDs + 1, executionIDs + 1, clock);
        if Reduce(opposite[0], fill).remaining > 0 {
          // the head stayed: the taker is exhausted and the loop stops
          assert r'.trades == [];
        } else {
          assert rest == opposite[1..];
          forall i: nat | 1 <= i < |r.trades|
            ensures FillAt(dir, taker, opposite, remainingQty, tradeIDs, executionIDs, clock, r.trades, i)
          {
            FillAtShift(dir, taker, opposite, remainingQty, tradeIDs, executionIDs, clock, fill, trade, r'.trades, i - 1);
          }
        }
      }
    }
  }

  /**
   * What each trade records: the i-th trade is at the price of the i-th
   * resting order, names that order as maker and carries its instrument,
   * names the taker and the taker's side, is stamped with its own clock reading, and has the
   * trade and execution ids i + 1 above the starting counters, so the ids
   * of successive trades increase strictly.
   */
  lemma MatchTradeFields(dir: OrderSide, taker: Order, opposite: seq<Order>, remainingQty: int,
                         tradeIDs: nat, executionIDs: nat, clock: nat -> int)
    ensures var r := Match(dir, taker, opposite, remainingQty, tradeIDs, executionIDs, clock);
            && |r.trades| <= |opposite|
            && forall i :: 0 <= i < |r.trades| ==>
                 && r.trades[i].price == opposite[i].price
                 && r.trades[i].makerOrderID == opposite[i].id
                 && r.trades[i].instrument == opposite[i].instrument
                 && r.trades[i].takerOrderID == taker.id
                 && r.trades[i].side == taker.side
                 && r.trades[i].timestamp == clock(tradeIDs + i + 1)
                 && r.trades[i].tradeID == tradeIDs + i + 1
                 && r.trades[i].executionID == executionIDs + i + 1
  {
    var r := Match(dir, taker, opposite, remainingQty, tradeIDs, executionIDs, clock);
    MatchFills(dir, taker, opposite, remainingQty, tradeIDs, executionIDs, clock);
    forall i | 0 <= i < |r.trades|
      ensures && r.trades[i].price == opposite[i].price
              && r.trades[i].makerOrderID == opposite[i].id
              && r.trades[i].instrument == opposite[i].instrument
              && r.trades[i].takerOrderID == taker.id
              && r.trades[i].side == taker.side
              && r.trades[i].timestamp == clock(tradeIDs + i + 1)
              && r.trades[i].tradeID == tradeIDs + i + 1
              && r.trades[i].executionID == executionIDs + i + 1
    {
      assert FillAt(dir, taker, opposite, remainingQty, tradeIDs, executionIDs, clock, r.trades, i);
    }
  }

  /**
   * What is left of the opposite side after `trades`: the first k = |trades|
   * resting orders were consumed and the rest keep their order. The one
   * exception is a last maker that was only partly filled: it stays at the
   * head with its remaining quantity reduced by its fill, and then the
   * taker is exhausted.
   */
  predicate LeftSuffix(opposite: seq<Order>, trades: seq<Trade>, left: seq<Order>, remainingQty: int)
  {
    var k := |trades|;
    && k <= |opposite|
    && if k > 0 && Reduce(opposite[k - 1], trades[k - 1].quantity).remaining > 0 then
         && remainingQty == 0
         && left == [Reduce(opposite[k - 1], trades[k - 1].quantity)] + opposite[k..]
       else
         left == opposite[k..]
  }

  /** The opposite side Match leaves behind is the suffix LeftSuffix describes. */
  lemma {:induction false} MatchLeavesSuffix(dir: OrderSide, taker: Order, opposite: seq<Order>, remainingQty: int,
                                             tradeIDs: nat, executionIDs: nat, clock: nat -> int)
    ensures var r := Match(dir, taker, opposite, remainingQty, tradeIDs, executionIDs, clock);
            LeftSuffix(opposite, r.trades, r.opposite, r.remainingQty)
    decreases |opposite|, if remainingQty > 0 then 1 else 0
  {
    var r := Match(dir, taker, opposite, remainingQty, tradeIDs, executionIDs, clock);
    if remainingQty <= 0 || |opposite| == 0 || !Crosses(dir, taker, opposite[0]) {
      assert r == MatchResult(opposite, [], remainingQty, taker);
      assert opposite[0..] == opposite;
    } else {
      var fill := Min(remainingQty, opposite[0].remaining);
      var trade := TradeDraft(opposite[0], taker, opposite[0].price, fill, tradeIDs + 1, executionIDs + 1, clock(tradeIDs + 1));
      var rest := AfterFill(opposite, fill);
      var taker' := Reduce(taker, fill);
      if taker.orderType == IOC && remainingQty - fill > 0 {
        assert r == MatchResult(rest, [trade], remainingQty - fill, taker');
        assert rest == opposite[1..];
      } else {
        var r' := Match(dir, taker', rest, remainingQty - fill, tradeIDs + 1, executionIDs + 1, clock);
        assert r == r'.(trades := [trade] + r'.trades);
        MatchLeavesSuffix(dir, taker', rest, remainingQty - fill, tradeIDs + 1, executionIDs + 1, clock);
        if Reduce(opposite[0], fill).remaining > 0 {
          assert remainingQty - fill == 0;
          assert r' == MatchResult(rest, [], 0, taker');
          assert rest == [Reduce(opposite[0], fill)] + opposite[1..];
        } else {
          assert rest == opposite[1..];
          assert rest[|r'.trades|..] == opposite[|r'.trades| + 1..];
          if |r'.trades| > 0 {
            assert r.trades[|r.trades| - 1] == r'.trades[|r'.trades| - 1];
            assert opposite[|r.trades| - 1] == rest[|r'.trades| - 1];
          }
        }
      }
    }
  }

  /**
   * Why the loop stops: the taker is exhausted, the opposite side is empty,
   * its head does not cross, or an IOC taker has a remainder after its
   * first fill. Hence an IOC taker fills at most once, and a Market taker
   * only stops when it is exhausted or the opposite side is. Some trade
   * happens exactly when the taker has a quantity and the opposite head crosses.
   */
  lemma {:induction false} MatchStops(dir: OrderSide, taker: Order, opposite: seq<Order>, remainingQty: int,
                                      tradeIDs: nat, executionIDs: nat, clock: nat -> int)
    ensures var r := Match(dir, taker, opposite, remainingQty, tradeIDs, executionIDs, clock);
            && (|| r.remainingQty <= 0
                || r.opposite == []
                || !Crosses(dir, taker, r.opposite[0])
                || (taker.orderType == IOC && |r.trades| == 1))
            && (taker.orderType == IOC ==> |r.trades| <= 1)
            && (taker.orderType == Market ==> r.remainingQty <= 0 || r.opposite == [])
            && (|r.trades| > 0 <==> remainingQty > 0 && |opposite| > 0 && Crosses(dir, taker, opposite[0]))
    decreases |opposite|, if remainingQty > 0 then 1 else 0
  {
    if remainingQty <= 0 || |opposite| == 0 || !Crosses(dir, taker, opposite[0]) {
    } else {
      var fill := Min(remainingQty, opposite[0].remaining);
      if !(taker.orderType == IOC && remainingQty - fill > 0) {
        MatchStops(dir, Reduce(taker, fill), AfterFill(opposite, fill), remainingQty - fill,
                   tradeIDs + 1, executionIDs + 1, clock);
      }
    }
  }

  /**
   * FOK and PostOnly get no treatment of their own in the loop: a taker of
   * either type fills exactly as the same order typed Limit would, with
   * the same trades, the same opposite side and the same quantity left.
   */
  lemma {:induction false} MatchesLikeLimit(dir: OrderSide, taker: Order, opposite: seq<Order>, remainingQty: int,
                                            tradeIDs: nat, executionIDs: nat, clock: nat -> int)
    requires taker.orderType == FOK || taker.orderType == PostOnly
    ensures var r := Match(dir, taker, opposite, remainingQty, tradeIDs, executionIDs, clock);
            var l := Match(dir, taker.(orderType := Limit), opposite, remainingQty, tradeIDs, executionIDs, clock);
            && r.trades == l.trades
            && r.opposite == l.opposite
            && r.remainingQty == l.remainingQty
            && r.taker == l.taker.(orderType := taker.orderType)
    decreases |opposite|, if remainingQty > 0 then 1 else 0
  {
    if remainingQty <= 0 || |opposite| == 0 || !Crosses(dir, taker, opposite[0]) {
    } else {
      var fill := Min(remainingQty, opposite[0].remaining);
      var taker' := Reduce(taker, fill);
      assert Reduce(taker.(orderType := Limit), fill) == taker'.(orderType := Limit);
      MatchesLikeLimit(dir, taker', AfterFill(opposite, fill), remainingQty - fill,
                       tradeIDs + 1, executionIDs + 1, clock);
    }
  }

  /**
   * FOK is not all-or-nothing: against a single crossing maker holding less
   * than the taker's quantity, a FOK taker trades that maker's whole
   * remaining quantity, is left with the difference, and does not rest.
   */
  lemma FokFillsPartially(dir: OrderSide, taker: Order, maker: Order, tradeIDs: nat, executionIDs: nat, clock: nat -> int)
    requires taker.orderType == FOK && Crosses(dir, taker, maker)
    requires 0 < maker.remaining < taker.quantity
    ensures var r := Match(dir, taker, [maker], taker.quantity, tradeIDs, executionIDs, clock);
            && |r.trades| == 1
            && r.trades[0].quantity == maker.remaining
            && r.remainingQty == taker.quantity - maker.remaining > 0
            && r.opposite == []
            && !Rests(taker, r.remainingQty)
  {
  }

  /**
   * A Market taker is never priced out, and whatever it cannot fill rests:
   * it rests exactly when something is left, and then only because the
   * opposite side ran out.
   */
  lemma MarketRemainderRests(dir: OrderSide, taker: Order, opposite: seq<Order>,
                             tradeIDs: nat, executionIDs: nat, clock: nat -> int)
    requires taker.orderType == Market
    ensures var r := Match(dir, taker, opposite, taker.quantity, tradeIDs, executionIDs, clock);
            && (Rests(taker, r.remainingQty) <==> r.remainingQty > 0)
            && (Rests(taker, r.remainingQty) ==> r.opposite == [])
  {
    MatchStops(dir, taker, opposite, taker.quantity, tradeIDs, executionIDs, clock);
  }

  /** Every order on a side has a positive remaining quantity. */
  predicate AllPositive(side: seq<Order>)
  {
    forall o :: o in side ==> o.remaining > 0
  }

  /** Filling the head of a side of positive orders by at most its remaining keeps the side positive. */
  lemma AfterFillPositive(opposite: seq<Order>, fill: int)
    requires |opposite| > 0 && AllPositive(opposite) && fill <= opposite[0].remaining
    ensures AllPositive(AfterFill(opposite, fill))
  {
    var rest := opposite[1..];
    assert forall o :: o in rest ==> o in opposite;
  }

  /**
   * On a side of orders with positive remaining quantities, and from a
   * non-negative quantity, every fill is positive, the quantity left is
   * between zero and the start, and every order left on the side still has
   * a positive remaining quantity.
   */
  lemma {:induction false} MatchPositive(dir: OrderSide, taker: Order, opposite: seq<Order>, remainingQty: int,
                                         tradeIDs: nat, executionIDs: nat, clock: nat -> int)
    requires remainingQty >= 0 && AllPositive(opposite)
    ensures var r := Match(dir, taker, opposite, remainingQty, tradeIDs, executionIDs, clock);
            && (forall t :: t in r.trades ==> t.quantity > 0)
            && 0 <= r.remainingQty <= remainingQty
            && AllPositive(r.opposite)
    decreases |opposite|, if remainingQty > 0 then 1 else 0
  {
    if remainingQty <= 0 || |opposite| == 0 || !Crosses(dir, taker, opposite[0]) {
    } else {
      var r := Match(dir, taker, opposite, remainingQty, tradeIDs, executionIDs, clock);
      var fill := Min(remainingQty, opposite[0].remaining);
      var trade := TradeDraft(opposite[0], taker, opposite[0].price, fill, tradeIDs + 1, executionIDs + 1, clock(tradeIDs + 1));
      var rest := AfterFill(opposite, fill);
      assert fill > 0;
      AfterFillPositive(opposite, fill);
      var taker' := Reduce(taker, fill);
      if taker.orderType == IOC && remainingQty - fill > 0 {
        assert r == MatchResult(rest, [trade], remainingQty - fill, taker');
      } else {
        var r' := Match(dir, taker', rest, remainingQty - fill, tradeIDs + 1, executionIDs + 1, clock);
        assert r == r'.(trades := [trade] + r'.trades);
        MatchPositive(dir, taker', rest, remainingQty - fill, tradeIDs + 1, executionIDs + 1, clock);
      }
    }
  }

  /** The loop has reached `m`, having emitted `emitted`, on its way to the final result `total`. */
  ghost predicate LeadsTo(m: MatchResult, emitted: seq<Trade>, total: MatchResult)
  {
    && emitted + m.trades == total.trades
    && m.opposite == total.opposite
    && m.remainingQty == total.remainingQty
    && m.taker == total.taker
  }

  /** The loop has ended exactly where Match ends. */
  ghost predicate Finished(opposite: seq<Order>, taker: Order, remainingQty: int, emitted: seq<Trade>, total: MatchResult)
  {
    total == MatchResult(opposite, emitted, remainingQty, taker)
  }

  /**
   * The matching loop's invariant: `emitted` trades have been pushed (one id
   * pair each, counting up from `tradeIDs0` and `executionIDs0`). A loop that has
   * stopped has ended where Match ends; one still running will end there.
   */
  ghost predicate OnTrack(dir: OrderSide, taker: Order, opposite: seq<Order>, remainingQty: int,
                          tradeIDs0: nat, executionIDs0: nat, clock: nat -> int,
                          emitted: seq<Trade>, total: MatchResult, stop: bool)
  {
    && (stop ==> Finished(opposite, taker, remainingQty, emitted, total))
    && (!stop ==> LeadsTo(Match(dir, taker, opposite, remainingQty,
                                tradeIDs0 + |emitted|, executionIDs0 + |emitted|, clock), emitted, total))
  }

  /** When the loop's exit test holds, the loop has ended where Match ends. */
  lemma LoopExits(dir: OrderSide, taker: Order, opposite: seq<Order>, remainingQty: int,
                  tradeIDs0: nat, executionIDs0: nat, clock: nat -> int, emitted: seq<Trade>, total: MatchResult)
    requires OnTrack(dir, taker, opposite, remainingQty, tradeIDs0, executionIDs0, clock, emitted, total, false)
    requires remainingQty <= 0 || |opposite| == 0 || !Crosses(dir, taker, opposite[0])
    ensures OnTrack(dir, taker, opposite, remainingQty, tradeIDs0, executionIDs0, clock, emitted, total, true)
  {
  }

  /**
   * One iteration of the loop: the fill of the head maker moves the loop to
   * the next state, which stops exactly when an IOC taker keeps a remainder.
   * A fill that leaves the opposite side as long as it was exhausts the taker.
   */
  lemma LoopStep(dir: OrderSide, taker: Order, opposite: seq<Order>, remainingQty: int,
                 tradeIDs0: nat, executionIDs0: nat, clock: nat -> int, emitted: seq<Trade>, total: MatchResult,
                 taker': Order, opposite': seq<Order>, remainingQty': int, trade: Trade)
    requires OnTrack(dir, taker, opposite, remainingQty, tradeIDs0, executionIDs0, clock, emitted, total, false)
    requires remainingQty > 0 && |opposite| > 0 && Crosses(dir, taker, opposite[0])
    requires var fill := Min(remainingQty, opposite[0].remaining);
             && trade == TradeDraft(opposite[0], taker, opposite[0].price, fill,
                                    tradeIDs0 + |emitted| + 1, executionIDs0 + |emitted| + 1, clock(tradeIDs0 + |emitted| + 1))
             && remainingQty' == remainingQty - fill
             && opposite' == AfterFill(opposite, fill)
             && taker' == Reduce(taker, fill)
    ensures OnTrack(dir, taker', opposite', remainingQty', tradeIDs0, executionIDs0, clock, emitted + [trade], total,
                    taker'.orderType == IOC && remainingQty' > 0)
    ensures |opposite'| == |opposite| ==> remainingQty' == 0
  {
    var fill := Min(remainingQty, opposite[0].remaining);
    var tc, ec := tradeIDs0 + |emitted|, executionIDs0 + |emitted|;
    assert |emitted + [trade]| == |emitted| + 1;
    assert taker'.orderType == taker.orderType;
    if taker.orderType == IOC && remainingQty' > 0 {
      assert Finished(opposite', taker', remainingQty', emitted + [trade], total);
    } else {
      var next := Match(dir, taker', opposite', remainingQty', tc + 1, ec + 1, clock);
      assert emitted + [trade] + next.trades == emitted + ([trade] + next.trades);
      assert LeadsTo(next, emitted + [trade], total);
    }
  }

  /** Whether a taker's remainder is added to its own side after the loop: anything left, unless the taker is IOC or FOK. */
  predicate Rests(order: Order, remainingQty: int)
    ensures Rests(order, remainingQty) ==> remainingQty > 0
    ensures order.orderType == IOC || order.orderType == FOK ==> !Rests(order, remainingQty)
    ensures order.orderType != IOC && order.orderType != FOK ==> (Rests(order, remainingQty) <==> remainingQty > 0)
  {
    remainingQty > 0 && order.orderType != IOC && order.orderType != FOK
  }

  // ---------------------------------------------------------------------
  // The book

  class OrderBook {
    var bids: seq<Order>
    var asks: seq<Order>
    /** The trades pushed to the book's output channel, oldest first. */
    var trades: seq<Trade>

    constructor ()
      ensures bids == [] && asks == [] && trades == []
    {
      bids := [];
      asks := [];
      trades := [];
    }

    /** Every resting order has a positive remaining quantity. */
    predicate Valid()
      reads this
    {
      AllPositive(bids) && AllPositive(asks)
    }

    /** GetBestBid: the head of the bid side (its earliest arrival), or None when it is empty. */
    function GetBestBid(): (r: Option<Order>)
      reads this
      ensures r.Some? <==> |bids| > 0
      ensures r.Some? ==> r.value == bids[0]
    {
      Head(bids)
    }

    /** GetBestAsk: the head of the ask side (its earliest arrival), or None when it is empty. */
    function GetBestAsk(): (r: Option<Order>)
      reads this
      ensures r.Some? <==> |asks| > 0
      ensures r.Some? ==> r.value == asks[0]
    {
      Head(asks)
    }

    /** GetMarketDepth is a stub: empty (non-nil) level lists, whatever the book holds. */
    function GetMarketDepth(level: int): (d: OrderBookSnapshot)
      ensures d.bids == Slice([]) && d.asks == Slice([])
      ensures d.stats == ZeroStats
    {
      OrderBookSnapshot("", 0, 0, Slice([]), Slice([]), ZeroStats)
    }

    /** AddBid: the order is appended at the tail of the bids; nothing else changes. */
    method AddBid(order: Order)
      modifies this`bids
      ensures bids == old(bids) + [order]
    {
      bids := bids + [order];
    }

    /** AddAsk: the order is appended at the tail of the asks; nothing else changes. */
    method AddAsk(order: Order)
      modifies this`asks
      ensures asks == old(asks) + [order]
    {
      asks := asks + [order];
    }

    /**
     * One fill against the head of `opposite`: the fill is the minimum of
     * the quantity still to match and the maker's remaining, at the maker's
     * price; one trade is pushed; the local quantity, the maker and the taker
     * all go down by the fill, and an exhausted maker is removed.
     */
    method ExecuteFill(opposite: seq<Order>, taker: Order, remainingQty: int, ids: IdSource, clock: nat -> int)
      returns (opposite': seq<Order>, taker': Order, remainingQty': int, trade: Trade)
      requires |opposite| > 0
      modifies this`trades, ids
      ensures var fill := Min(remainingQty, opposite[0].remaining);
              && trade == TradeDraft(opposite[0], taker, opposite[0].price, fill,
                                     old(ids.tradeIDCounter) + 1, old(ids.executionCounter) + 1, clock(old(ids.tradeIDCounter) + 1))
              && trades == old(trades) + [trade]
              && remainingQty' == remainingQty - fill
              && opposite' == AfterFill(opposite, fill)
              && taker' == Reduce(taker, fill)
              && ids.tradeIDCounter == old(ids.tradeIDCounter) + 1
              && ids.executionCounter == old(ids.executionCounter) + 1
    {
      var maker := opposite[0];
      var fillQty := Min(remainingQty, maker.remaining);
      var fillPrice := maker.price;
      var tradeID := ids.GenerateTradeID();
      var executionID := ids.NextExecutionID();
      trade := TradeDraft(maker, taker, fillPrice, fillQty, tradeID, executionID, clock(tradeID));
      trades := trades + [trade];
      remainingQty' := remainingQty - fillQty;
      taker' := Reduce(taker, fillQty);
      opposite' := AfterFill(opposite, fillQty);
    }

    /**
     * The loop shared by ProcessBuyOrder and ProcessSellOrder, run against
     * `opposite` (a copy of the opposite side), starting from the order's
     * original quantity. Each fill pushes one trade; the opposite side,
     * the taker and the quantity left are returned.
     */
    method MatchLoop(dir: OrderSide, order: Order, opposite0: seq<Order>, ids: IdSource, clock: nat -> int)
      returns (opposite: seq<Order>, taker: Order, remainingQty: int)
      modifies this`trades, ids
      ensures var r := Match(dir, order, opposite0, order.quantity,
                             old(ids.tradeIDCounter), old(ids.executionCounter), clock);
              && opposite == r.opposite
              && taker == r.taker
              && remainingQty == r.remainingQty
              && trades == old(trades) + r.trades
              && ids.tradeIDCounter == old(ids.tradeIDCounter) + |r.trades|
              && ids.executionCounter == old(ids.executionCounter) + |r.trades|
    {
      ghost var tc0, ec0 := ids.tradeIDCounter, ids.executionCounter;
      ghost var total := Match(dir, order, opposite0, order.quantity, tc0, ec0, clock);
      ghost var emitted: seq<Trade> := [];
      opposite, taker, remainingQty := opposite0, order, order.quantity;
      var stop := false;
      while !stop
        invariant trades == old(trades) + emitted
        invariant ids.tradeIDCounter == tc0 + |emitted|
        invariant ids.executionCounter == ec0 + |emitted|
        invariant OnTrack(dir, taker, opposite, remainingQty, tc0, ec0, clock, emitted, total, stop)
        decreases |opposite|, if stop then 0 else 1, if remainingQty > 0 then 1 else 0
      {
        var best := Head(opposite);
        if remainingQty <= 0 || best.None? || !Crosses(dir, taker, best.value) {
          LoopExits(dir, taker, opposite, remainingQty, tc0, ec0, clock, emitted, total);
          stop := true;
        } else {
          var opposite', taker', remainingQty', trade := ExecuteFill(opposite, taker, remainingQty, ids, clock);
          LoopStep(dir, taker, opposite, remainingQty, tc0, ec0, clock, emitted, total,
                   taker', opposite', remainingQty', trade);
          opposite, taker, remainingQty := opposite', taker', remainingQty';
          emitted := emitted + [trade];
          stop := taker.orderType == IOC && remainingQty > 0;
        }
      }
      assert Finished(opposite, taker, remainingQty, emitted, total);
    }

    /**
     * ProcessBuyOrder: match against the asks, then rest any remainder at
     * the tail of the bids unless the order is IOC or FOK. Returns the order
     * as the caller sees it afterwards (its remaining quantity reduced).
     */
    method ProcessBuyOrder(order: Order, ids: IdSource, clock: nat -> int) returns (taker: Order)
      modifies this, ids
      ensures var r := Match(Buy, order, old(asks), order.quantity,
                             old(ids.tradeIDCounter), old(ids.executionCounter), clock);
              && asks == r.opposite
              && bids == old(bids) + (if Rests(order, r.remainingQty) then [r.taker] else [])
              && trades == old(trades) + r.trades
              && taker == r.taker
              && ids.tradeIDCounter == old(ids.tradeIDCounter) + |r.trades|
              && ids.executionCounter == old(ids.executionCounter) + |r.trades|
      ensures old(Valid()) && order.remaining == order.quantity ==> Valid()
    {
      var rest, remainingQty;
      rest, taker, remainingQty := MatchLoop(Buy, order, asks, ids, clock);
      asks := rest;
      if remainingQty > 0 && order.orderType != IOC && order.orderType != FOK {
        AddBid(taker);
      }
      if old(Valid()) && order.remaining == order.quantity {
        ProcessKeepsValid(Buy, order, old(asks), old(ids.tradeIDCounter), old(ids.executionCounter), clock);
      }
    }

    /**
     * ProcessSellOrder: match against the bids, then rest any remainder at
     * the tail of the asks unless the order is IOC or FOK.
     */
    method ProcessSellOrder(order: Order, ids: IdSource, clock: nat -> int) returns (taker: Order)
      modifies this, ids
      ensures var r := Match(Sell, order, old(bids), order.quantity,
                             old(ids.tradeIDCounter), old(ids.executionCounter), clock);
              && bids == r.opposite
              && asks == old(asks) + (if Rests(order, r.remainingQty) then [r.taker] else [])
              && trades == old(trades) + r.trades
              && taker == r.taker
              && ids.tradeIDCounter == old(ids.tradeIDCounter) + |r.trades|
              && ids.executionCounter == old(ids.executionCounter) + |r.trades|
      ensures old(Valid()) && order.remaining == order.quantity ==> Valid()
    {
      var rest, remainingQty;
      rest, taker, remainingQty := MatchLoop(Sell, order, bids, ids, clock);
      bids := rest;
      if remainingQty > 0 && order.orderType != IOC && order.orderType != FOK {
        AddAsk(taker);
      }
      if old(Valid()) && order.remaining == order.quantity {
        ProcessKeepsValid(Sell, order, old(bids), old(ids.tradeIDCounter), old(ids.executionCounter), clock);
      }
    }

    /** The body of ProcessOrders' loop: dispatch on the order's side. */
    method ProcessOrder(order: Order, ids: IdSource, clock: nat -> int) returns (taker: Order)
      modifies this, ids
      ensures var dir := order.side;
              var r := Match(dir, order, if dir == Buy then old(asks) else old(bids), order.quantity,
                             old(ids.tradeIDCounter), old(ids.executionCounter), clock);
              && trades == old(trades) + r.trades
              && taker == r.taker
              && (dir == Buy ==> asks == r.opposite && bids == old(bids) + (if Rests(order, r.remainingQty) then [r.taker] else []))
              && (dir == Sell ==> bids == r.opposite && asks == old(asks) + (if Rests(order, r.remainingQty) then [r.taker] else []))
              && ids.tradeIDCounter == old(ids.tradeIDCounter) + |r.trades|
              && ids.executionCounter == old(ids.executionCounter) + |r.trades|
      ensures old(Valid()) && order.remaining == order.quantity ==> Valid()
    {
      match order.side {
        case Buy => taker := ProcessBuyOrder(order, ids, clock);
        case Sell => taker := ProcessSellOrder(order, ids, clock);
      }
    }
  }

  /**
   * Processing keeps every resting order's remaining quantity positive,
   * provided the incoming order's remaining equals its quantity (as the
   * adapters create it).
   */
  lemma ProcessKeepsValid(dir: OrderSide, order: Order, opposite: seq<Order>,
                          tradeIDs: nat, executionIDs: nat, clock: nat -> int)
    requires order.remaining == order.quantity
    requires AllPositive(opposite)
    ensures var r := Match(dir, order, opposite, order.quantity, tradeIDs, executionIDs, clock);
            && AllPositive(r.opposite)
            && (Rests(order, r.remainingQty) ==> r.taker.remaining > 0)
  {
    var r := Match(dir, order, opposite, order.quantity, tradeIDs, executionIDs, clock);
    if order.quantity >= 0 {
      MatchPositive(dir, order, opposite, order.quantity, tradeIDs, executionIDs, clock);
    }
    MatchConserves(dir, order, opposite, order.quantity, tradeIDs, executionIDs, clock);
  }
}
