/** Setting levels, order by order: what stands at each price afterwards, ids and
    places in line included. */
module LevelSets {
  import opened Market
  import opened PriceTime
  import opened BookRuns

  /** The orders resting at `price`, oldest first. */
  function AtPrice(es: seq<Entry>, price: Price): seq<Entry> {
    if es == [] then []
    else (if es[0].price == price then [es[0]] else []) + AtPrice(es[1..], price)
  }

  /** The id a level hands on to what replaces it. */
  function HeadId(level: seq<Entry>): OrderId {
    if level == [] then ANONYMOUS else level[0].id
  }

  /** One level set to a size. */
  function Set(level: seq<Entry>, price: Price, volume: Volume): seq<Entry> {
    if volume <= 0 then [] else [Entry(price, HeadId(level), volume)]
  }

  /** The aggregate volume at a price is that of the orders standing there. */
  lemma {:induction false} VolumeIsTotal(es: seq<Entry>, price: Price)
    ensures VolumeAt(es, price) == Total(AtPrice(es, price))
  {
    if es != [] {
      VolumeIsTotal(es[1..], price);
      assert ([es[0]] + AtPrice(es[1..], price))[1..] == AtPrice(es[1..], price);
      assert [] + AtPrice(es[1..], price) == AtPrice(es[1..], price);
    }
  }

  lemma {:induction false} OldestIsHead(es: seq<Entry>, price: Price)
    ensures OldestAt(es, price) == HeadId(AtPrice(es, price))
  {
    if es != [] {
      OldestIsHead(es[1..], price);
      assert [] + AtPrice(es[1..], price) == AtPrice(es[1..], price);
    }
  }

  lemma {:induction false} AtPriceEnqueued(s: Side, es: seq<Entry>, e: Entry, price: Price)
    requires e.price == price ==> AtPrice(es, price) == []
    ensures AtPrice(Enqueue(s, es, e), price) == if e.price == price then [e] else AtPrice(es, price)
  {
    if es == [] || Better(s, e.price, es[0].price) {
      assert ([e] + es)[1..] == es;
      assert [e] + [] == [e] && [] + AtPrice(es, price) == AtPrice(es, price);
    } else {
      if e.price == price {
        assert es[0].price != price;
        assert [] + AtPrice(es[1..], price) == AtPrice(es[1..], price);
      }
      AtPriceEnqueued(s, es[1..], e, price);
      assert ([es[0]] + Enqueue(s, es[1..], e))[1..] == Enqueue(s, es[1..], e);
      assert [] + [e] == [e];
    }
  }

  lemma {:induction false} AtPriceWithout(es: seq<Entry>, at: Price, price: Price)
    ensures AtPrice(WithoutPrice(es, at), price) == if at == price then [] else AtPrice(es, price)
  {
    if es != [] {
      AtPriceWithout(es[1..], at, price);
      assert ([es[0]] + WithoutPrice(es[1..], at))[1..] == WithoutPrice(es[1..], at);
      assert [] + WithoutPrice(es[1..], at) == WithoutPrice(es[1..], at);
      assert [] + AtPrice(es[1..], price) == AtPrice(es[1..], price);
    }
  }

  /** Setting a level leaves exactly one order of that size at the price, or none for
      a size of 0 or less, and every other price as it was. */
  lemma OverwriteAtPrice(b: Book, s: Side, at: Price, volume: Volume, t: Side, price: Price)
    ensures AtPrice(Overwrite(b, s, at, volume).Of(t), price)
         == if t == s && price == at then Set(AtPrice(b.Of(s), at), at, volume) else AtPrice(b.Of(t), price)
  {
    hide Enqueue, WithoutPrice, AtPrice, OldestAt;
    var es := WithoutPrice(b.Of(s), at);
    AtPriceWithout(b.Of(s), at, price);
    OldestIsHead(b.Of(s), at);
    AtPriceEnqueued(s, es, Entry(at, OldestAt(b.Of(s), at), volume), price);
  }

  /** The documented result, one anonymous aggregate, comes about exactly when the
      oldest order at the price was anonymous or there was none. */
  lemma OverwriteAggregates(b: Book, s: Side, price: Price, volume: Volume)
    requires volume > 0
    ensures AtPrice(Overwrite(b, s, price, volume).Of(s), price) == [Entry(price, ANONYMOUS, volume)]
       <==> OldestAt(b.Of(s), price) == ANONYMOUS
  {
    hide AtPrice, OldestAt, Overwrite;
    OverwriteAtPrice(b, s, price, volume, s, price);
    OldestIsHead(b.Of(s), price);
  }

  /** An identified order placed, and its level then set: the aggregate keeps its id. */
  lemma OverwriteKeepsId()
    ensures var b := Place(EMPTY, Order(7, Bid, 100, 5, GoodTillCanceled)).book;
      Overwrite(b, Bid, 100, 9).bids == [Entry(100, 7, 9)]
  {
  }

  // ------------------------------------------- what all the levels determine

  lemma {:induction false} AtPriceFinds(es: seq<Entry>, i: nat)
    requires i < |es|
    ensures AtPrice(es, es[i].price) != []
  {
    if i > 0 {
      AtPriceFinds(es[1..], i - 1);
    }
  }

  lemma {:induction false} AtPriceIn(es: seq<Entry>, price: Price)
    requires AtPrice(es, price) != []
    ensures exists i :: 0 <= i < |es| && es[i].price == price
  {
    if es[0].price == price {
      assert es[0].price == price;
    } else {
      AtPriceIn(es[1..], price);
      var i :| 0 <= i < |es[1..]| && es[1..][i].price == price;
      assert es[i + 1].price == price;
    }
  }

  /** Of two sides in priority order with the same orders at every price, the first
      orders are the same. */
  lemma SameFirst(s: Side, es: seq<Entry>, fs: seq<Entry>)
    requires Sorted(s, es) && Sorted(s, fs) && es != [] && fs != []
    requires forall price :: AtPrice(es, price) == AtPrice(fs, price)
    ensures es[0] == fs[0]
  {
    AtPriceFinds(es, 0);
    AtPriceFinds(fs, 0);
    AtPriceIn(es, fs[0].price);
    AtPriceIn(fs, es[0].price);
    var i :| 0 <= i < |es| && es[i].price == fs[0].price;
    var j :| 0 <= j < |fs| && fs[j].price == es[0].price;
    assert !Better(s, es[i].price, es[0].price) && !Better(s, fs[j].price, fs[0].price);
    assert es[0].price == fs[0].price;
    assert AtPrice(es, es[0].price)[0] == es[0] && AtPrice(fs, es[0].price)[0] == fs[0];
  }

  /** A side in priority order is determined by what stands at each price. */
  lemma {:induction false} LevelsDetermine(s: Side, es: seq<Entry>, fs: seq<Entry>)
    requires Sorted(s, es) && Sorted(s, fs)
    requires forall price :: AtPrice(es, price) == AtPrice(fs, price)
    ensures es == fs
  {
    if es == [] {
      if fs != [] {
        AtPriceFinds(fs, 0);
      }
    } else if fs == [] {
      AtPriceFinds(es, 0);
    } else {
      SameFirst(s, es, fs);
      forall price
        ensures AtPrice(es[1..], price) == AtPrice(fs[1..], price)
      {
        var x := if es[0].price == price then [es[0]] else [];
        assert AtPrice(es, price) == x + AtPrice(es[1..], price) && AtPrice(fs, price) == x + AtPrice(fs[1..], price);
        assert AtPrice(es, price)[|x|..] == AtPrice(es[1..], price);
        assert AtPrice(fs, price)[|x|..] == AtPrice(fs[1..], price);
      }
      LevelsDetermine(s, es[1..], fs[1..]);
      assert es == [es[0]] + es[1..] && fs == [fs[0]] + fs[1..];
    }
  }
}
