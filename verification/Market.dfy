/** The vocabulary of the exchange: sides, orders, trades and the two price
    comparisons the matching engine is built on. */
module Market {
  datatype Side = Bid | Ask

  datatype OrderType = GoodTillCanceled | FillOrKill | ImmediateOrCancel

  type Price = nat
  type Volume = int
  type OrderId = nat

  /** The reserved id: an order carrying it is never indexed. */
  const ANONYMOUS: OrderId := 0

  datatype Order = Order(id: OrderId, side: Side, price: Price, volume: Volume, kind: OrderType)

  datatype Trade = Trade(aggressor: OrderId, resting: OrderId, price: Price, volume: Volume)

  function Opposed(s: Side): Side {
    if s.Bid? then Ask else Bid
  }

  /** Would an incoming order of side `s` limited at `limit` trade at `bookPrice`? */
  predicate Crosses(s: Side, limit: Price, bookPrice: Price) {
    if s.Bid? then limit >= bookPrice else limit <= bookPrice
  }

  /** `a` has strictly better priority than `b` among the resting orders of side `s`. */
  predicate Better(s: Side, a: Price, b: Price) {
    if s.Bid? then a > b else a < b
  }
}
