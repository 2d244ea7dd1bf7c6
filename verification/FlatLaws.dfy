/** How the reference operations act on a book cut at one price level. */
module FlatLaws {
  import opened Commons
  import opened Market
  import opened PriceTime
  import opened BookRep

  /** Every order of a run of levels is at the price of one of them. */
  lemma {:induction false} FlatPrices(
      nodes: Nodes, chains: map<Key, Chain>, s: Side, levels: seq<Level>, f: Price -> bool)
    requires forall i :: 0 <= i < |levels| ==> f(levels[i].price)
    ensures forall j :: 0 <= j < |Flat(nodes, chains, s, levels)| ==> f(Flat(nodes, chains, s, levels)[j].price)
  {
    if levels != [] {
      FlatPrices(nodes, chains, s, levels[1..], f);
      EntriesPrice(nodes, chains, Key(s, levels[0].price));
    }
  }

  lemma EntriesPrice(nodes: Nodes, chains: map<Key, Chain>, k: Key)
    ensures forall j :: 0 <= j < |EntriesAt(nodes, chains, k)| ==> EntriesAt(nodes, chains, k)[j].price == k.price
  {
  }

  ghost predicate AvoidsPrice(es: seq<Entry>, price: Price) {
    forall j :: 0 <= j < |es| ==> es[j].price != price
  }

  ghost predicate AtPrice(es: seq<Entry>, price: Price) {
    forall j :: 0 <= j < |es| ==> es[j].price == price
  }

  // ----------------------------------------------------------------- Enqueue

  lemma {:induction false} EnqueueBetween(s: Side, xs: seq<Entry>, ys: seq<Entry>, e: Entry)
    requires forall j :: 0 <= j < |xs| ==> !Better(s, e.price, xs[j].price)
    requires ys != [] ==> Better(s, e.price, ys[0].price)
    ensures Enqueue(s, xs + ys, e) == xs + [e] + ys
  {
    hide Better;
    if xs == [] {
      assert xs + ys == ys && xs + [e] + ys == [e] + ys;
    } else {
      assert (xs + ys)[1..] == xs[1..] + ys && (xs + ys)[0] == xs[0];
      EnqueueBetween(s, xs[1..], ys, e);
      assert [xs[0]] + (xs[1..] + [e] + ys) == xs + [e] + ys;
    }
  }

  // ------------------------------------------------------------------ Reduce

  lemma {:induction false} ReduceSkips(xs: seq<Entry>, ys: seq<Entry>, price: Price, volume: Volume)
    requires AvoidsPrice(xs, price)
    ensures Reduce(xs + ys, price, volume) == xs + Reduce(ys, price, volume)
  {
    if xs == [] || volume <= 0 {
      assert [] + ys == ys;
    } else {
      assert (xs + ys)[1..] == xs[1..] + ys;
      ReduceSkips(xs[1..], ys, price, volume);
    }
  }

  lemma ReduceAvoids(xs: seq<Entry>, price: Price, volume: Volume)
    requires AvoidsPrice(xs, price)
    ensures Reduce(xs, price, volume) == xs
  {
  }

  /** `take` gone from the front order of a queue. */
  function DrainFront(es: seq<Entry>, take: Volume): seq<Entry>
    requires es != []
  {
    if take == es[0].volume then es[1..] else [es[0].(volume := es[0].volume - take)] + es[1..]
  }

  /** One turn of the reduction loop. */
  lemma ReduceStep(above: seq<Entry>, es: seq<Entry>, below: seq<Entry>, price: Price, volume: Volume)
    requires AvoidsPrice(above, price) && es != [] && es[0].price == price && volume > 0 && es[0].volume > 0
    ensures var take := Min(volume, es[0].volume);
      Reduce(above + es + below, price, volume) == Reduce(above + DrainFront(es, take) + below, price, volume - take)
  {
    var take := Min(volume, es[0].volume);
    var ds := DrainFront(es, take);
    assert above + es + below == above + (es + below);
    assert above + ds + below == above + (ds + below);
    ReduceSkips(above, es + below, price, volume);
    ReduceSkips(above, ds + below, price, volume - take);
    assert (es + below)[1..] == es[1..] + below;
    if take < es[0].volume {
      assert ds + below == [es[0].(volume := es[0].volume - take)] + (es[1..] + below);
    }
  }

  // ------------------------------------------------------------------- Sweep

  /** `r` is what remains to be done of `whole` after `done`. */
  ghost predicate Continues(whole: Swept, done: seq<Trade>, r: Swept) {
    whole == Swept(done + r.trades, r.remainder, r.rest)
  }

  lemma Unstarted(whole: Swept)
    ensures Continues(whole, [], whole)
  {
  }

  /** A sweep is its first fill and then the sweep of what that leaves. */
  lemma SweepOnce(id: OrderId, s: Side, limit: Price, volume: Volume, es: seq<Entry>, below: seq<Entry>)
    requires volume > 0 && es != [] && es[0].volume > 0 && Crosses(s, limit, es[0].price)
    ensures var fill := Min(volume, es[0].volume);
            var r := Sweep(id, s, limit, volume - fill, DrainFront(es, fill) + below);
      Sweep(id, s, limit, volume, es + below)
        == Swept([Trade(id, es[0].id, es[0].price, fill)] + r.trades, r.remainder, r.rest)
  {
    var fill := Min(volume, es[0].volume);
    assert (es + below)[1..] == es[1..] + below;
    if fill < es[0].volume {
      assert DrainFront(es, fill) + below == [es[0].(volume := es[0].volume - fill)] + (es[1..] + below);
    }
  }

  /** One turn of the matching loop. */
  lemma SweepStep(whole: Swept, done: seq<Trade>, id: OrderId, s: Side, limit: Price, volume: Volume,
                  es: seq<Entry>, below: seq<Entry>)
    requires volume > 0 && es != [] && es[0].volume > 0 && Crosses(s, limit, es[0].price)
    requires Continues(whole, done, Sweep(id, s, limit, volume, es + below))
    ensures var fill := Min(volume, es[0].volume);
      Continues(whole, done + [Trade(id, es[0].id, es[0].price, fill)],
                Sweep(id, s, limit, volume - fill, DrainFront(es, fill) + below))
  {
    hide Sweep, DrainFront;
    SweepOnce(id, s, limit, volume, es, below);
    var fill := Min(volume, es[0].volume);
    var t := Trade(id, es[0].id, es[0].price, fill);
    var r := Sweep(id, s, limit, volume - fill, DrainFront(es, fill) + below);
    assert done + ([t] + r.trades) == done + [t] + r.trades;
  }

  // ----------------------------------------------------------------- Without

  lemma {:induction false} WithoutConcat(xs: seq<Entry>, ys: seq<Entry>, id: OrderId)
    ensures Without(xs + ys, id) == Without(xs, id) + Without(ys, id)
  {
    if xs == [] {
      assert xs + ys == ys;
    } else {
      assert (xs + ys)[1..] == xs[1..] + ys;
      WithoutConcat(xs[1..], ys, id);
    }
  }

  lemma {:induction false} WithoutAbsent(es: seq<Entry>, id: OrderId)
    requires !HasId(es, id)
    ensures Without(es, id) == es
  {
    if es != [] {
      assert !HasId(es[1..], id);
      WithoutAbsent(es[1..], id);
    }
  }

  /** Dropping the one order that carries an id. */
  lemma WithoutOne(es: seq<Entry>, j: nat, id: OrderId)
    requires j < |es| && es[j].id == id
    requires forall x :: 0 <= x < |es| && x != j ==> es[x].id != id
    ensures Without(es, id) == es[..j] + es[j + 1..]
  {
    hide Without;
    var above, below := es[..j], es[j + 1..];
    assert es == above + ([es[j]] + below);
    WithoutConcat(above, [es[j]] + below, id);
    WithoutConcat([es[j]], below, id);
    WithoutOnly(es[j]);
    WithoutAbsent(above, id);
    WithoutAbsent(below, id);
    assert above + ([] + below) == above + below;
  }

  lemma WithoutOnly(e: Entry)
    ensures Without([e], e.id) == []
  {
  }

  // ---------------------------------------------------------------- Overwrite

  lemma {:induction false} WithoutPriceConcat(xs: seq<Entry>, ys: seq<Entry>, price: Price)
    ensures WithoutPrice(xs + ys, price) == WithoutPrice(xs, price) + WithoutPrice(ys, price)
  {
    if xs == [] {
      assert xs + ys == ys;
    } else {
      assert (xs + ys)[1..] == xs[1..] + ys;
      WithoutPriceConcat(xs[1..], ys, price);
    }
  }

  lemma {:induction false} WithoutPriceAvoids(es: seq<Entry>, price: Price)
    requires AvoidsPrice(es, price)
    ensures WithoutPrice(es, price) == es
  {
    if es != [] {
      WithoutPriceAvoids(es[1..], price);
    }
  }

  lemma {:induction false} WithoutPriceAt(es: seq<Entry>, price: Price)
    requires AtPrice(es, price)
    ensures WithoutPrice(es, price) == []
  {
    if es != [] {
      WithoutPriceAt(es[1..], price);
    }
  }

  lemma WithoutPriceCut(above: seq<Entry>, es: seq<Entry>, below: seq<Entry>, price: Price)
    requires AvoidsPrice(above, price) && AtPrice(es, price) && AvoidsPrice(below, price)
    ensures WithoutPrice(above + es + below, price) == above + below
  {
    WithoutPriceConcat(above + es, below, price);
    WithoutPriceConcat(above, es, price);
    WithoutPriceAvoids(above, price);
    WithoutPriceAt(es, price);
    WithoutPriceAvoids(below, price);
  }

  lemma {:induction false} OldestSkips(xs: seq<Entry>, ys: seq<Entry>, price: Price)
    requires AvoidsPrice(xs, price)
    ensures OldestAt(xs + ys, price) == OldestAt(ys, price)
  {
    if xs == [] {
      assert xs + ys == ys;
    } else {
      assert (xs + ys)[1..] == xs[1..] + ys;
      OldestSkips(xs[1..], ys, price);
    }
  }

  // ---------------------------------------------------------------- measures

  lemma {:induction false} VolumeAtConcat(xs: seq<Entry>, ys: seq<Entry>, price: Price)
    ensures VolumeAt(xs + ys, price) == VolumeAt(xs, price) + VolumeAt(ys, price)
  {
    if xs == [] {
      assert xs + ys == ys;
    } else {
      assert (xs + ys)[1..] == xs[1..] + ys;
      VolumeAtConcat(xs[1..], ys, price);
    }
  }

  lemma {:induction false} VolumeAtAvoids(es: seq<Entry>, price: Price)
    requires AvoidsPrice(es, price)
    ensures VolumeAt(es, price) == 0
  {
    if es != [] {
      VolumeAtAvoids(es[1..], price);
    }
  }

  lemma {:induction false} VolumeAtPrice(es: seq<Entry>, price: Price)
    requires AtPrice(es, price)
    ensures VolumeAt(es, price) == Total(es)
  {
    if es != [] {
      VolumeAtPrice(es[1..], price);
    }
  }

  // ------------------------------------------------------------- resting twice

  lemma {:induction false} EnqueuedId(s: Side, es: seq<Entry>, e: Entry)
    ensures HasId(Enqueue(s, es, e), e.id)
  {
    if es == [] || Better(s, e.price, es[0].price) {
      assert ([e] + es)[0].id == e.id;
    } else {
      EnqueuedId(s, es[1..], e);
      var i :| 0 <= i < |Enqueue(s, es[1..], e)| && Enqueue(s, es[1..], e)[i].id == e.id;
      assert Enqueue(s, es, e)[i + 1].id == e.id;
    }
  }

  lemma {:induction false} EnqueuedTwice(s: Side, es: seq<Entry>, e: Entry)
    requires e.id != ANONYMOUS && HasId(es, e.id)
    ensures !DistinctIds(Enqueue(s, es, e))
  {
    var q := Enqueue(s, es, e);
    var k :| 0 <= k < |es| && es[k].id == e.id;
    if Better(s, e.price, es[0].price) {
      assert q[0].id == q[k + 1].id == e.id;
    } else if es[0].id == e.id {
      EnqueuedId(s, es[1..], e);
      var i :| 0 <= i < |Enqueue(s, es[1..], e)| && Enqueue(s, es[1..], e)[i].id == e.id;
      assert q[0].id == q[i + 1].id == e.id;
    } else {
      assert es[1..][k - 1].id == e.id;
      EnqueuedTwice(s, es[1..], e);
      var rest := Enqueue(s, es[1..], e);
      var i, j :| 0 <= i < j < |rest| && rest[i].id != ANONYMOUS && rest[i].id == rest[j].id;
      assert q[i + 1].id == q[j + 1].id != ANONYMOUS;
    }
  }

  /** An id rested while it is resting is one the book then holds twice. */
  lemma AddedTwice(b: Book, s: Side, e: Entry)
    requires e.id != ANONYMOUS && Resting(b, e.id)
    ensures !WellFormed(Add(b, s, e))
  {
    hide Enqueue, Sorted, Positive;
    EnqueuedId(s, b.Of(s), e);
    if HasId(b.Of(s), e.id) {
      EnqueuedTwice(s, b.Of(s), e);
    } else {
      assert HasId(b.Of(Opposed(s)), e.id);
    }
  }
}
