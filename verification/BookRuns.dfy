/** Laws of whole runs of the engine, stated on the reference model every public
    method of the engine is proved against. */
module BookRuns {
  import opened Commons
  import opened Market
  import opened PriceTime
  import opened MatchingLaws
  import opened FlatLaws

  datatype Op =
    | PlaceOp(order: Order)
    | CancelOp(id: OrderId)
    | AddOp(side: Side, price: Price, volume: Volume)
    | DeleteOp(side: Side, price: Price, volume: Volume)
    | SetOp(side: Side, price: Price, volume: Volume)

  function Apply(b: Book, op: Op): Book {
    match op
    case PlaceOp(o) => Place(b, o).book
    case CancelOp(id) => Cancel(b, id)
    case AddOp(s, price, volume) => if volume <= 0 then b else Add(b, s, Entry(price, ANONYMOUS, volume))
    case DeleteOp(s, price, volume) => Delete(b, s, price, volume)
    case SetOp(s, price, volume) => Overwrite(b, s, price, volume)
  }

  function Run(b: Book, ops: seq<Op>): Book
    decreases |ops|
  {
    if ops == [] then b else Run(Apply(b, ops[0]), ops[1..])
  }

  /** A side in priority order, with nothing resting that has no volume. */
  ghost predicate InOrder(s: Side, es: seq<Entry>) {
    Sorted(s, es) && Positive(es)
  }

  ghost predicate Ordered(b: Book) {
    InOrder(Bid, b.bids) && InOrder(Ask, b.asks)
  }

  /** Nothing in `es` is better than `price`. */
  ghost predicate NoneBetter(s: Side, es: seq<Entry>, price: Price) {
    forall j :: 0 <= j < |es| ==> !Better(s, es[j].price, price)
  }

  // --------------------------------------------- every operation keeps the order

  lemma PrependInOrder(s: Side, e: Entry, es: seq<Entry>)
    requires InOrder(s, es) && e.volume > 0 && NoneBetter(s, es, e.price)
    ensures InOrder(s, [e] + es)
  {
  }

  lemma TailInOrder(s: Side, es: seq<Entry>)
    requires InOrder(s, es) && es != []
    ensures InOrder(s, es[1..]) && NoneBetter(s, es[1..], es[0].price) && es[0].volume > 0
  {
  }

  lemma {:induction false} SweepKeepsOrder(
      id: OrderId, t: Side, limit: Price, volume: Volume, s: Side, es: seq<Entry>, price: Price)
    requires InOrder(s, es) && NoneBetter(s, es, price)
    ensures InOrder(s, Sweep(id, t, limit, volume, es).rest)
    ensures NoneBetter(s, Sweep(id, t, limit, volume, es).rest, price)
    decreases |es|
  {
    if volume > 0 && es != [] && Crosses(t, limit, es[0].price) {
      TailInOrder(s, es);
      if volume < es[0].volume {
        PrependInOrder(s, es[0].(volume := es[0].volume - volume), es[1..]);
      } else {
        SweepKeepsOrder(id, t, limit, volume - es[0].volume, s, es[1..], price);
      }
    }
  }

  lemma {:induction false} WithoutKeepsOrder(s: Side, es: seq<Entry>, id: OrderId, price: Price)
    requires InOrder(s, es) && NoneBetter(s, es, price)
    ensures InOrder(s, Without(es, id)) && NoneBetter(s, Without(es, id), price)
  {
    hide InOrder;
    if es != [] {
      TailInOrder(s, es);
      WithoutKeepsOrder(s, es[1..], id, es[0].price);
      WithoutKeepsOrder(s, es[1..], id, price);
      PrependInOrder(s, es[0], Without(es[1..], id));
      assert [] + Without(es[1..], id) == Without(es[1..], id);
    }
  }

  lemma {:induction false} ReduceKeepsOrder(s: Side, es: seq<Entry>, at: Price, volume: Volume, price: Price)
    requires InOrder(s, es) && NoneBetter(s, es, price)
    ensures InOrder(s, Reduce(es, at, volume)) && NoneBetter(s, Reduce(es, at, volume), price)
    decreases |es|
  {
    hide InOrder;
    if volume > 0 && es != [] {
      TailInOrder(s, es);
      if es[0].price != at {
        ReduceKeepsOrder(s, es[1..], at, volume, es[0].price);
        ReduceKeepsOrder(s, es[1..], at, volume, price);
        PrependInOrder(s, es[0], Reduce(es[1..], at, volume));
      } else if volume < es[0].volume {
        PrependInOrder(s, es[0].(volume := es[0].volume - volume), es[1..]);
      } else {
        ReduceKeepsOrder(s, es[1..], at, volume - es[0].volume, price);
      }
    }
  }

  lemma {:induction false} EnqueueKeepsOrder(s: Side, es: seq<Entry>, e: Entry, price: Price)
    requires InOrder(s, es) && e.volume > 0
    ensures InOrder(s, Enqueue(s, es, e))
    ensures NoneBetter(s, es, price) && !Better(s, e.price, price) ==> NoneBetter(s, Enqueue(s, es, e), price)
  {
    if es == [] {
    } else if Better(s, e.price, es[0].price) {
      PrependInOrder(s, e, es);
    } else {
      TailInOrder(s, es);
      EnqueueKeepsOrder(s, es[1..], e, es[0].price);
      EnqueueKeepsOrder(s, es[1..], e, price);
      PrependInOrder(s, es[0], Enqueue(s, es[1..], e));
    }
  }

  lemma {:induction false} WithoutPriceKeepsOrder(s: Side, es: seq<Entry>, at: Price, price: Price)
    requires InOrder(s, es) && NoneBetter(s, es, price)
    ensures InOrder(s, WithoutPrice(es, at)) && NoneBetter(s, WithoutPrice(es, at), price)
  {
    hide InOrder;
    if es != [] {
      TailInOrder(s, es);
      WithoutPriceKeepsOrder(s, es[1..], at, es[0].price);
      WithoutPriceKeepsOrder(s, es[1..], at, price);
      PrependInOrder(s, es[0], WithoutPrice(es[1..], at));
      assert [] + WithoutPrice(es[1..], at) == WithoutPrice(es[1..], at);
    }
  }

  // -------------------------------------------------- a side only gets worse

  /** The best price of `es`, if any, is no better than that of `was`. */
  ghost predicate NoBetterFront(s: Side, es: seq<Entry>, was: seq<Entry>) {
    es != [] ==> was != [] && !Better(s, es[0].price, was[0].price)
  }

  lemma SweepFront(id: OrderId, t: Side, limit: Price, volume: Volume, s: Side, es: seq<Entry>)
    requires InOrder(s, es)
    ensures InOrder(s, Sweep(id, t, limit, volume, es).rest)
    ensures NoBetterFront(s, Sweep(id, t, limit, volume, es).rest, es)
  {
  }

  lemma WithoutFront(s: Side, es: seq<Entry>, id: OrderId)
    requires InOrder(s, es)
    ensures InOrder(s, Without(es, id)) && NoBetterFront(s, Without(es, id), es)
  {
  }

  lemma ReduceFront(s: Side, es: seq<Entry>, at: Price, volume: Volume)
    requires InOrder(s, es)
    ensures InOrder(s, Reduce(es, at, volume)) && NoBetterFront(s, Reduce(es, at, volume), es)
  {
  }

  lemma WithoutPriceFront(s: Side, es: seq<Entry>, at: Price)
    requires InOrder(s, es)
    ensures InOrder(s, WithoutPrice(es, at)) && NoBetterFront(s, WithoutPrice(es, at), es)
  {
    if es != [] {
      WithoutPriceKeepsOrder(s, es, at, es[0].price);
    }
  }

  /** Worsening either side never crosses a book. */
  lemma WorseStaysUncrossed(b: Book, c: Book)
    requires Uncrossed(b)
    requires NoBetterFront(Bid, c.bids, b.bids) && NoBetterFront(Ask, c.asks, b.asks)
    ensures Uncrossed(c)
  {
  }

  /** A sweep that leaves a remainder has exhausted everything its limit crosses. */
  lemma {:induction false} RemainderMeansSwept(
      id: OrderId, s: Side, limit: Price, volume: Volume, es: seq<Entry>)
    requires Sweep(id, s, limit, volume, es).remainder > 0
    ensures var rest := Sweep(id, s, limit, volume, es).rest;
      rest == [] || !Crosses(s, limit, rest[0].price)
    decreases |es|
  {
    if volume > 0 && es != [] && Crosses(s, limit, es[0].price) && volume >= es[0].volume {
      RemainderMeansSwept(id, s, limit, volume - es[0].volume, es[1..]);
    }
  }

  /** An order of side `s` at `price` would trade with nothing across the book. */
  ghost predicate NothingAcross(b: Book, s: Side, price: Price) {
    var os := b.Of(Opposed(s));
    os == [] || !Crosses(s, price, os[0].price)
  }

  /** Resting an order unmatched leaves a book uncrossed exactly when there is nothing
      to match it with. */
  lemma AddUncrossed(b: Book, s: Side, e: Entry)
    requires Uncrossed(b)
    ensures Uncrossed(Add(b, s, e)) <==> NothingAcross(b, s, e.price)
  {
  }

  lemma PlaceKeeps(b: Book, o: Order)
    requires Ordered(b)
    ensures Ordered(Place(b, o).book)
    ensures Uncrossed(b) ==> Uncrossed(Place(b, o).book)
  {
    hide InOrder, Sweep, Enqueue, Uncrossed;
    var t := Opposed(o.side);
    if o.volume > 0 {
      var r := Sweep(o.id, o.side, o.price, o.volume, b.Of(t));
      var swept := b.With(t, r.rest);
      SweepFront(o.id, o.side, o.price, o.volume, t, b.Of(t));
      if Uncrossed(b) {
        WorseStaysUncrossed(b, swept);
      }
      if r.remainder > 0 && o.kind.GoodTillCanceled? {
        var e := Entry(o.price, o.id, r.remainder);
        EnqueueKeepsOrder(o.side, b.Of(o.side), e, o.price);
        RemainderMeansSwept(o.id, o.side, o.price, o.volume, b.Of(t));
        if Uncrossed(b) {
          AddUncrossed(swept, o.side, e);
        }
      }
    }
  }

  /** Taking a level out only worsens its side; what is then rested in its place may
      cross. */
  lemma OverwriteKeeps(b: Book, s: Side, price: Price, volume: Volume)
    requires Ordered(b)
    ensures Ordered(Overwrite(b, s, price, volume))
    ensures Uncrossed(b) ==>
              (Uncrossed(Overwrite(b, s, price, volume)) <==> volume <= 0 || NothingAcross(b, s, price))
  {
    hide InOrder, Enqueue, WithoutPrice, Uncrossed;
    WithoutPriceFront(s, b.Of(s), price);
    SameFront(Opposed(s), b.Of(Opposed(s)));
    var c := b.With(s, WithoutPrice(b.Of(s), price));
    if Uncrossed(b) {
      WorseStaysUncrossed(b, c);
    }
    if volume > 0 {
      var e := Entry(price, OldestAt(b.Of(s), price), volume);
      EnqueueKeepsOrder(s, c.Of(s), e, price);
      SameBook(b, s, c.Of(s), Enqueue(s, c.Of(s), e));
      if Uncrossed(b) {
        AddUncrossed(c, s, e);
      }
    }
  }

  lemma SameBook(b: Book, s: Side, es: seq<Entry>, fs: seq<Entry>)
    ensures b.With(s, es).With(s, fs) == b.With(s, fs)
    ensures b.With(s, es).Of(Opposed(s)) == b.Of(Opposed(s)) && b.With(s, es).Of(s) == es
  {
  }

  lemma SameFront(s: Side, es: seq<Entry>)
    ensures NoBetterFront(s, es, es)
  {
  }

  lemma RemovalKeeps(b: Book, op: Op)
    requires Ordered(b) && (op.CancelOp? || op.DeleteOp?)
    ensures Ordered(Apply(b, op))
    ensures Uncrossed(b) ==> Uncrossed(Apply(b, op))
  {
    hide InOrder, Without, Reduce, Uncrossed;
    SameFront(Bid, b.bids);
    SameFront(Ask, b.asks);
    match op {
      case CancelOp(id) =>
        WithoutFront(Bid, b.bids, id);
        WithoutFront(Ask, b.asks, id);
      case DeleteOp(s, price, volume) =>
        ReduceFront(s, b.Of(s), price, volume);
    }
    if Uncrossed(b) {
      WorseStaysUncrossed(b, Apply(b, op));
    }
  }

  /** The operation rests nothing unmatched that could have traded. */
  ghost predicate Harmless(b: Book, op: Op) {
    match op
    case AddOp(s, price, volume) => volume <= 0 || NothingAcross(b, s, price)
    case SetOp(s, price, volume) => volume <= 0 || NothingAcross(b, s, price)
    case _ => true
  }

  /** Every operation keeps both sides in priority order with positive volumes, and
      keeps an uncrossed book uncrossed exactly when it is harmless. */
  lemma OpKeeps(b: Book, op: Op)
    requires Ordered(b)
    ensures Ordered(Apply(b, op))
    ensures Uncrossed(b) ==> (Uncrossed(Apply(b, op)) <==> Harmless(b, op))
  {
    hide InOrder, Uncrossed, Enqueue, Overwrite, NothingAcross;
    match op
    case PlaceOp(o) => PlaceKeeps(b, o);
    case AddOp(s, price, volume) =>
      if volume > 0 {
        var e := Entry(price, ANONYMOUS, volume);
        EnqueueKeepsOrder(s, b.Of(s), e, price);
        if Uncrossed(b) {
          AddUncrossed(b, s, e);
        }
      }
    case SetOp(s, price, volume) => OverwriteKeeps(b, s, price, volume);
    case _ => RemovalKeeps(b, op);
  }

  /** Every operation of the run is harmless to the book it finds. */
  ghost predicate HarmlessRun(b: Book, ops: seq<Op>)
    decreases |ops|
  {
    ops == [] || (Harmless(b, ops[0]) && HarmlessRun(Apply(b, ops[0]), ops[1..]))
  }

  /** The book is uncrossed before, between and after the operations of the run. */
  ghost predicate UncrossedThroughout(b: Book, ops: seq<Op>)
    decreases |ops|
  {
    Uncrossed(b) && (ops == [] || UncrossedThroughout(Apply(b, ops[0]), ops[1..]))
  }

  /** Over any run both sides stay in priority order with positive volumes, and the
      book is never crossed exactly when all that is rested unmatched is harmless. */
  lemma {:induction false} NeverCrossed(b: Book, ops: seq<Op>)
    requires Ordered(b) && Uncrossed(b)
    ensures Ordered(Run(b, ops))
    ensures UncrossedThroughout(b, ops) <==> HarmlessRun(b, ops)
    ensures HarmlessRun(b, ops) ==> Uncrossed(Run(b, ops))
    decreases |ops|
  {
    hide Ordered, Uncrossed, Apply, Harmless;
    if ops != [] {
      OpKeeps(b, ops[0]);
      if Harmless(b, ops[0]) {
        NeverCrossed(Apply(b, ops[0]), ops[1..]);
      } else {
        StaysOrdered(b, ops);
        if UncrossedThroughout(b, ops) {
          ThroughoutStarts(Apply(b, ops[0]), ops[1..]);
        }
      }
    }
  }

  lemma ThroughoutStarts(b: Book, ops: seq<Op>)
    requires UncrossedThroughout(b, ops)
    ensures Uncrossed(b)
  {
  }

  lemma {:induction false} StaysOrdered(b: Book, ops: seq<Op>)
    requires Ordered(b)
    ensures Ordered(Run(b, ops))
    decreases |ops|
  {
    hide Ordered, Apply;
    if ops != [] {
      OpKeeps(b, ops[0]);
      StaysOrdered(Apply(b, ops[0]), ops[1..]);
    }
  }

  /** Placing, cancelling and deleting are always harmless, so runs of them never cross
      the book. */
  lemma {:induction false} MatchedRunsAreHarmless(b: Book, ops: seq<Op>)
    requires forall i :: 0 <= i < |ops| ==> !ops[i].AddOp? && !ops[i].SetOp?
    ensures HarmlessRun(b, ops)
    decreases |ops|
  {
    hide Apply;
    if ops != [] {
      MatchedRunsAreHarmless(Apply(b, ops[0]), ops[1..]);
    }
  }

  /** Both unmatched operations can cross a book. */
  lemma AddCanCross()
    ensures !Uncrossed(Run(EMPTY, [AddOp(Bid, 101, 1), AddOp(Ask, 100, 1)]))
    ensures !Uncrossed(Run(EMPTY, [SetOp(Bid, 101, 1), SetOp(Ask, 100, 1)]))
  {
  }

  /** The same order placed twice rests twice, under one id. */
  lemma CanRestTwice()
    ensures var o := Order(7, Bid, 100, 5, GoodTillCanceled);
            var b := Place(EMPTY, o).book;
      RestsTwice(b, o) && Place(b, o).book.bids == [Entry(100, 7, 5), Entry(100, 7, 5)]
  {
    assert Place(EMPTY, Order(7, Bid, 100, 5, GoodTillCanceled)).book.bids[0].id == 7;
  }

  // ------------------------------------------------------------ volume ledger

  /** Where the volume a run accepted has gone. */
  datatype Ledger = Ledger(accepted: int, traded: int, cancelled: int, deleted: int, dropped: int, replaced: int)
  {
    function Plus(m: Ledger): Ledger {
      Ledger(accepted + m.accepted, traded + m.traded, cancelled + m.cancelled, deleted + m.deleted,
             dropped + m.dropped, replaced + m.replaced)
    }
  }

  function RestingVolume(b: Book): int {
    Total(b.bids) + Total(b.asks)
  }

  /** The volume resting under an id. */
  function VolumeOf(es: seq<Entry>, id: OrderId): int {
    if es == [] then 0
    else (if es[0].id == id then es[0].volume else 0) + VolumeOf(es[1..], id)
  }

  /** What an order gives up instead of resting. */
  function Dropped(b: Book, o: Order): int {
    var left := o.volume - TradedVolume(Place(b, o).trades);
    if o.volume <= 0 || o.kind.GoodTillCanceled? then 0 else left
  }

  function Account(b: Book, op: Op): Ledger {
    match op
    case PlaceOp(o) =>
      Ledger(if o.volume > 0 then o.volume else 0, TradedVolume(Place(b, o).trades), 0, 0, Dropped(b, o), 0)
    case CancelOp(id) =>
      Ledger(0, 0, if id == ANONYMOUS then 0 else VolumeOf(b.bids, id) + VolumeOf(b.asks, id), 0, 0, 0)
    case AddOp(s, price, volume) =>
      Ledger(if volume > 0 then volume else 0, 0, 0, 0, 0, 0)
    case DeleteOp(s, price, volume) =>
      Ledger(0, 0, 0, if volume > 0 then Min(volume, VolumeAt(b.Of(s), price)) else 0, 0, 0)
    case SetOp(s, price, volume) =>
      Ledger(if volume > 0 then volume else 0, 0, 0, 0, 0, VolumeAt(b.Of(s), price))
  }

  function Accounts(b: Book, ops: seq<Op>): Ledger
    decreases |ops|
  {
    if ops == [] then Ledger(0, 0, 0, 0, 0, 0)
    else Account(b, ops[0]).Plus(Accounts(Apply(b, ops[0]), ops[1..]))
  }

  lemma {:induction false} SweepConserves(id: OrderId, s: Side, limit: Price, volume: Volume, es: seq<Entry>)
    ensures var r := Sweep(id, s, limit, volume, es);
      && Total(r.rest) == Total(es) - TradedVolume(r.trades)
      && r.remainder == volume - TradedVolume(r.trades)
    decreases |es|
  {
    if volume > 0 && es != [] && Crosses(s, limit, es[0].price) {
      if volume < es[0].volume {
        assert ([es[0].(volume := es[0].volume - volume)] + es[1..])[1..] == es[1..];
      } else {
        SweepConserves(id, s, limit, volume - es[0].volume, es[1..]);
        var t := Sweep(id, s, limit, volume - es[0].volume, es[1..]);
        assert ([Trade(id, es[0].id, es[0].price, es[0].volume)] + t.trades)[1..] == t.trades;
      }
    }
  }

  lemma {:induction false} EnqueueConserves(s: Side, es: seq<Entry>, e: Entry)
    ensures Total(Enqueue(s, es, e)) == Total(es) + e.volume
  {
    if es == [] || Better(s, e.price, es[0].price) {
      assert ([e] + es)[1..] == es;
    } else {
      EnqueueConserves(s, es[1..], e);
      assert ([es[0]] + Enqueue(s, es[1..], e))[1..] == Enqueue(s, es[1..], e);
    }
  }

  lemma {:induction false} WithoutConserves(es: seq<Entry>, id: OrderId)
    ensures Total(Without(es, id)) == Total(es) - VolumeOf(es, id)
  {
    if es != [] {
      WithoutConserves(es[1..], id);
      assert ([es[0]] + Without(es[1..], id))[1..] == Without(es[1..], id);
      assert [] + Without(es[1..], id) == Without(es[1..], id);
    }
  }

  lemma {:induction false} VolumeAtNonNegative(es: seq<Entry>, price: Price)
    requires Positive(es)
    ensures VolumeAt(es, price) >= 0
  {
    if es != [] {
      VolumeAtNonNegative(es[1..], price);
    }
  }

  lemma {:induction false} ReduceConserves(es: seq<Entry>, price: Price, volume: Volume)
    requires Positive(es)
    ensures Total(Reduce(es, price, volume))
         == Total(es) - (if volume > 0 then Min(volume, VolumeAt(es, price)) else 0)
    decreases |es|
  {
    VolumeAtNonNegative(es, price);
    if volume > 0 && es != [] {
      VolumeAtNonNegative(es[1..], price);
      if es[0].price != price {
        ReduceConserves(es[1..], price, volume);
        assert ([es[0]] + Reduce(es[1..], price, volume))[1..] == Reduce(es[1..], price, volume);
      } else if volume < es[0].volume {
        assert ([es[0].(volume := es[0].volume - volume)] + es[1..])[1..] == es[1..];
      } else {
        ReduceConserves(es[1..], price, volume - es[0].volume);
      }
    }
  }

  lemma {:induction false} WithoutPriceConserves(es: seq<Entry>, price: Price)
    ensures Total(WithoutPrice(es, price)) == Total(es) - VolumeAt(es, price)
  {
    if es != [] {
      WithoutPriceConserves(es[1..], price);
      assert ([es[0]] + WithoutPrice(es[1..], price))[1..] == WithoutPrice(es[1..], price);
      assert [] + WithoutPrice(es[1..], price) == WithoutPrice(es[1..], price);
    }
  }

  /** The accounting identity: nothing accepted is lost or counted twice. A trade
      counts twice because it consumes volume of both its orders. */
  ghost predicate Balances(before: int, after: int, l: Ledger) {
    before + l.accepted == after + 2 * l.traded + l.cancelled + l.deleted + l.dropped + l.replaced
  }

  lemma PlaceBalances(b: Book, o: Order)
    ensures Balances(RestingVolume(b), RestingVolume(Place(b, o).book), Account(b, PlaceOp(o)))
  {
    hide Sweep, Enqueue, Total;
    if o.volume > 0 {
      var es := b.Of(Opposed(o.side));
      SweepConserves(o.id, o.side, o.price, o.volume, es);
      var r := Sweep(o.id, o.side, o.price, o.volume, es);
      EnqueueConserves(o.side, b.Of(o.side), Entry(o.price, o.id, r.remainder));
      NoNegativeRemainder(o.id, o.side, o.price, o.volume, es);
    }
  }

  lemma {:induction false} NoNegativeRemainder(id: OrderId, s: Side, limit: Price, volume: Volume, es: seq<Entry>)
    requires volume >= 0
    ensures Sweep(id, s, limit, volume, es).remainder >= 0
    decreases |es|
  {
    if volume > 0 && es != [] && Crosses(s, limit, es[0].price) && volume >= es[0].volume {
      NoNegativeRemainder(id, s, limit, volume - es[0].volume, es[1..]);
    }
  }

  lemma OpBalances(b: Book, op: Op)
    requires Ordered(b)
    ensures Balances(RestingVolume(b), RestingVolume(Apply(b, op)), Account(b, op))
  {
    hide Sweep, Enqueue, Without, WithoutPrice, Reduce, Total, VolumeAt, VolumeOf, OldestAt, Sorted, Min, Place;
    match op
    case PlaceOp(o) =>
      PlaceBalances(b, o);
    case CancelOp(id) =>
      WithoutConserves(b.bids, id);
      WithoutConserves(b.asks, id);
    case AddOp(s, price, volume) =>
      EnqueueConserves(s, b.Of(s), Entry(price, ANONYMOUS, volume));
    case DeleteOp(s, price, volume) =>
      ReduceConserves(b.Of(s), price, volume);
    case SetOp(s, price, volume) =>
      var es := WithoutPrice(b.Of(s), price);
      WithoutPriceConserves(b.Of(s), price);
      EnqueueConserves(s, es, Entry(price, OldestAt(b.Of(s), price), volume));
  }

  /** Over any run, accepted volume is what rests, plus twice what traded, plus what
      was cancelled, deleted, dropped and replaced. */
  lemma {:induction false} LedgerBalances(b: Book, ops: seq<Op>)
    requires Ordered(b)
    ensures Balances(RestingVolume(b), RestingVolume(Run(b, ops)), Accounts(b, ops))
    decreases |ops|
  {
    hide Ordered, Apply, Account;
    if ops != [] {
      OpKeeps(b, ops[0]);
      OpBalances(b, ops[0]);
      LedgerBalances(Apply(b, ops[0]), ops[1..]);
    }
  }

  // --------------------------------------------------------------- cancelling

  lemma {:induction false} WithoutUndoesEnqueue(s: Side, es: seq<Entry>, e: Entry)
    requires !HasId(es, e.id)
    ensures Without(Enqueue(s, es, e), e.id) == es
  {
    if es == [] || Better(s, e.price, es[0].price) {
      assert ([e] + es)[1..] == es;
      WithoutAbsent(es, e.id);
      assert [] + es == es;
    } else {
      assert es[0].id != e.id;
      assert !HasId(es[1..], e.id);
      WithoutUndoesEnqueue(s, es[1..], e);
      assert ([es[0]] + Enqueue(s, es[1..], e))[1..] == Enqueue(s, es[1..], e);
    }
  }

  lemma PlaceWithoutCrossing(b: Book, o: Order)
    requires NothingAcross(b, o.side, o.price)
    ensures Place(b, o).trades == []
    ensures Place(b, o).book == b || Place(b, o).book == Add(b, o.side, Entry(o.price, o.id, o.volume))
  {
  }

  /** Placing an order that crosses nothing and cancelling it restores the book. */
  lemma PlaceThenCancel(b: Book, o: Order)
    requires o.id != ANONYMOUS && !Resting(b, o.id)
    requires NothingAcross(b, o.side, o.price)
    ensures Cancel(Place(b, o).book, o.id) == b
    ensures Place(b, o).trades == []
  {
    hide Place, Enqueue, Without, HasId, Crosses;
    PlaceWithoutCrossing(b, o);
    WithoutAbsent(b.bids, o.id);
    WithoutAbsent(b.asks, o.id);
    WithoutUndoesEnqueue(o.side, b.Of(o.side), Entry(o.price, o.id, o.volume));
  }

  /** Cancelling takes out exactly the named order, wherever it stands, and leaves
      every other order's priority alone. */
  lemma CancelIsExact(b: Book, s: Side, j: nat, id: OrderId)
    requires WellFormed(b) && id != ANONYMOUS
    requires j < |b.Of(s)| && b.Of(s)[j].id == id
    ensures Cancel(b, id).Of(s) == b.Of(s)[..j] + b.Of(s)[j + 1..]
    ensures Cancel(b, id).Of(Opposed(s)) == b.Of(Opposed(s))
    ensures !Resting(Cancel(b, id), id)
  {
    hide Without, Sorted, Positive;
    WithoutHasNone(b.bids, id);
    WithoutHasNone(b.asks, id);
    WithoutOne(b.Of(s), j, id);
    assert !HasId(b.Of(Opposed(s)), id);
    WithoutAbsent(b.Of(Opposed(s)), id);
  }

  /** An id that is not resting, because it was never placed or has been filled,
      cancels nothing, and neither does the reserved one. */
  lemma CancelOfAbsent(b: Book, id: OrderId)
    requires id == ANONYMOUS || !Resting(b, id)
    ensures Cancel(b, id) == b
  {
    if id != ANONYMOUS {
      WithoutAbsent(b.bids, id);
      WithoutAbsent(b.asks, id);
    }
  }

  lemma {:induction false} WithoutHasNone(es: seq<Entry>, id: OrderId)
    ensures !HasId(Without(es, id), id)
  {
    if es != [] {
      WithoutHasNone(es[1..], id);
    }
  }
}
