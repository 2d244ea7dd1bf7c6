/** The reference model of the order book: per side, one sequence of resting
    orders in price-then-time priority, with no levels, links or caches. Every
    operation of the engine is specified here as a function of that sequence. */
module PriceTime {
  import opened Market

  datatype Entry = Entry(price: Price, id: OrderId, volume: Volume)

  datatype Book = Book(bids: seq<Entry>, asks: seq<Entry>) {
    function Of(s: Side): seq<Entry> {
      if s.Bid? then bids else asks
    }

    function With(s: Side, es: seq<Entry>): Book {
      if s.Bid? then Book(es, asks) else Book(bids, es)
    }

    function Count(): nat {
      |bids| + |asks|
    }
  }

  const EMPTY := Book([], [])

  // ---------------------------------------------------------------- measures

  function Total(es: seq<Entry>): int {
    if es == [] then 0 else es[0].volume + Total(es[1..])
  }

  function VolumeAt(es: seq<Entry>, price: Price): int {
    if es == [] then 0
    else (if es[0].price == price then es[0].volume else 0) + VolumeAt(es[1..], price)
  }

  // -------------------------------------------------------------- invariants

  ghost predicate Sorted(s: Side, es: seq<Entry>) {
    forall i, j :: 0 <= i < j < |es| ==> !Better(s, es[j].price, es[i].price)
  }

  ghost predicate Positive(es: seq<Entry>) {
    forall i :: 0 <= i < |es| ==> es[i].volume > 0
  }

  ghost predicate HasId(es: seq<Entry>, id: OrderId) {
    exists i :: 0 <= i < |es| && es[i].id == id
  }

  ghost predicate Resting(b: Book, id: OrderId) {
    HasId(b.bids, id) || HasId(b.asks, id)
  }

  /** No identified order rests twice on a side. */
  ghost predicate DistinctIds(es: seq<Entry>) {
    forall i, j :: 0 <= i < j < |es| && es[i].id != ANONYMOUS ==> es[i].id != es[j].id
  }

  ghost predicate WellFormed(b: Book) {
    && Sorted(Bid, b.bids) && Sorted(Ask, b.asks)
    && Positive(b.bids) && Positive(b.asks)
    && DistinctIds(b.bids) && DistinctIds(b.asks)
    && forall i, j :: 0 <= i < |b.bids| && 0 <= j < |b.asks| && b.bids[i].id != ANONYMOUS
                      ==> b.bids[i].id != b.asks[j].id
  }

  /** Best bid strictly below best ask whenever both exist. */
  ghost predicate Uncrossed(b: Book) {
    b.bids != [] && b.asks != [] ==> b.bids[0].price < b.asks[0].price
  }

  // -------------------------------------------------------------- operations

  datatype Swept = Swept(trades: seq<Trade>, remainder: Volume, rest: seq<Entry>)

  /** The naive greedy matcher: hit the front order while anything is left and
      the limit crosses it. */
  function Sweep(id: OrderId, s: Side, limit: Price, volume: Volume, es: seq<Entry>): Swept
    decreases |es|
  {
    if volume <= 0 || es == [] || !Crosses(s, limit, es[0].price) then
      Swept([], volume, es)
    else if volume < es[0].volume then
      Swept([Trade(id, es[0].id, es[0].price, volume)], 0,
            [es[0].(volume := es[0].volume - volume)] + es[1..])
    else
      var r := Sweep(id, s, limit, volume - es[0].volume, es[1..]);
      Swept([Trade(id, es[0].id, es[0].price, es[0].volume)] + r.trades, r.remainder, r.rest)
  }

  /** Join the queue behind every order of the same or better price. */
  function Enqueue(s: Side, es: seq<Entry>, e: Entry): seq<Entry> {
    if es == [] || Better(s, e.price, es[0].price) then [e] + es
    else [es[0]] + Enqueue(s, es[1..], e)
  }

  function Without(es: seq<Entry>, id: OrderId): seq<Entry> {
    if es == [] then []
    else (if es[0].id == id then [] else [es[0]]) + Without(es[1..], id)
  }

  /** Take `volume` from the orders resting at `price`, oldest first. */
  function Reduce(es: seq<Entry>, price: Price, volume: Volume): seq<Entry> {
    if volume <= 0 || es == [] then es
    else if es[0].price != price then [es[0]] + Reduce(es[1..], price, volume)
    else if volume < es[0].volume then [es[0].(volume := es[0].volume - volume)] + es[1..]
    else Reduce(es[1..], price, volume - es[0].volume)
  }

  function WithoutPrice(es: seq<Entry>, price: Price): seq<Entry> {
    if es == [] then []
    else (if es[0].price == price then [] else [es[0]]) + WithoutPrice(es[1..], price)
  }

  /** The id of the oldest order resting at `price`, anonymous if there is none. */
  function OldestAt(es: seq<Entry>, price: Price): OrderId {
    if es == [] then ANONYMOUS
    else if es[0].price == price then es[0].id
    else OldestAt(es[1..], price)
  }

  datatype Placed = Placed(book: Book, trades: seq<Trade>)

  function Place(b: Book, o: Order): Placed {
    if o.volume <= 0 then Placed(b, [])
    else
      var r := Sweep(o.id, o.side, o.price, o.volume, b.Of(Opposed(o.side)));
      if o.kind.FillOrKill? && r.remainder > 0 then Placed(b, [])
      else
        var swept := b.With(Opposed(o.side), r.rest);
        if r.remainder > 0 && o.kind.GoodTillCanceled? then
          Placed(Add(swept, o.side, Entry(o.price, o.id, r.remainder)), r.trades)
        else Placed(swept, r.trades)
  }

  /** Would placing the order rest its id while it is resting already? */
  ghost predicate RestsTwice(b: Book, o: Order) {
    && o.id != ANONYMOUS && o.volume > 0 && o.kind.GoodTillCanceled?
    && var r := Sweep(o.id, o.side, o.price, o.volume, b.Of(Opposed(o.side)));
       r.remainder > 0 && Resting(b.With(Opposed(o.side), r.rest), o.id)
  }

  function Add(b: Book, s: Side, e: Entry): Book {
    b.With(s, Enqueue(s, b.Of(s), e))
  }

  function Cancel(b: Book, id: OrderId): Book {
    if id == ANONYMOUS then b else Book(Without(b.bids, id), Without(b.asks, id))
  }

  function Delete(b: Book, s: Side, price: Price, volume: Volume): Book {
    b.With(s, Reduce(b.Of(s), price, volume))
  }

  /** Make `volume` the whole of what rests at `price`; non-positive removes it. */
  function Overwrite(b: Book, s: Side, price: Price, volume: Volume): Book {
    var es := WithoutPrice(b.Of(s), price);
    if volume <= 0 then b.With(s, es)
    else b.With(s, Enqueue(s, es, Entry(price, OldestAt(b.Of(s), price), volume)))
  }
}
