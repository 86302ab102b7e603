/**
 * The domain model of internal/models: orders, trades, their enumerations,
 * and the two pure checks an order carries (Validate and IsActive).
 *
 * Prices and quantities are integer ticks (the source uses float64).
 */
module Models {
  import opened Wrappers

  datatype OrderType = Limit | Market | IOC | FOK | PostOnly

  datatype OrderSide = Buy | Sell

  datatype OrderStatus = New | Partial | Filled | Cancelled | Rejected

  /**
   * An order. `quantity` is the original size; `remaining` is what is still
   * open. Account, timestamps, client id, tags and margin parameters are
   * passthrough data the core never reads, so they are not part of the model.
   */
  datatype Order = Order(
    id: nat,
    price: int,
    quantity: int,
    remaining: int,
    side: OrderSide,
    orderType: OrderType,
    instrument: string,
    status: OrderStatus)

  /** A fill between a resting maker and an incoming taker. */
  datatype Trade = Trade(
    tradeID: nat,
    executionID: nat,
    price: int,
    quantity: int,
    timestamp: int,
    makerOrderID: nat,
    takerOrderID: nat,
    instrument: string,
    side: OrderSide)

  /** The three validation errors, in the order Validate checks them. */
  datatype ValidationError = ErrInvalidQuantity | ErrInvalidPrice | ErrMissingInstrument

  /** An order is active while it is new or partially filled. */
  predicate IsActive(o: Order)
    ensures IsActive(o) <==> !(o.status == Filled || o.status == Cancelled || o.status == Rejected)
  {
    o.status == New || o.status == Partial
  }

  /** The structural conditions an order must meet to be accepted. */
  predicate WellFormed(o: Order)
  {
    o.quantity > 0 && (o.orderType == Limit ==> o.price > 0) && |o.instrument| > 0
  }

  /**
   * Structural validation; `None` is Go's nil error. The checks run in a
   * fixed order: quantity, then (for Limit orders only) price, then instrument.
   */
  function Validate(o: Order): (r: Option<ValidationError>)
    ensures r == None <==> WellFormed(o)
    ensures o.quantity <= 0 ==> r == Some(ErrInvalidQuantity)
    ensures r == Some(ErrInvalidPrice) <==> o.quantity > 0 && o.orderType == Limit && o.price <= 0
    ensures r == Some(ErrMissingInstrument) <==>
              o.quantity > 0 && (o.orderType == Limit ==> o.price > 0) && |o.instrument| == 0
  {
    if o.quantity <= 0 then Some(ErrInvalidQuantity)
    else if o.orderType == Limit && o.price <= 0 then Some(ErrInvalidPrice)
    else if |o.instrument| == 0 then Some(ErrMissingInstrument)
    else None
  }

  /** Only Limit orders are price-checked: any other type passes whatever its price. */
  lemma NonLimitNeverPriceChecked(o: Order, p: int)
    requires o.orderType != Limit
    ensures Validate(o) != Some(ErrInvalidPrice)
    ensures Validate(o.(price := p)) == Validate(o)
  {
  }
}
