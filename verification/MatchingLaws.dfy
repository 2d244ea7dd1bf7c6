/** What the greedy matcher means: a closed form for every fill, price-time
    priority, exact fill-or-kill, additivity and conservation of volume. */
module MatchingLaws {
  import opened Commons
  import opened Market
  import opened PriceTime

  // ------------------------------------------------------------ closed form

  /** The volume an incoming order of `volume` takes from `es[i]`: whatever is
      left of it after everything with priority over `es[i]`, capped by `es[i]`. */
  function Fill(s: Side, limit: Price, volume: Volume, es: seq<Entry>, i: nat): Volume
    requires i < |es|
  {
    var left := volume - Total(es[..i]);
    if left <= 0 || !Crosses(s, limit, es[i].price) then 0 else Min(left, es[i].volume)
  }

  /** Trade by trade: who was hit, at what price, for how much; and nobody else was. */
  ghost predicate FillsAreWaterfall(
      id: OrderId, s: Side, limit: Price, volume: Volume, es: seq<Entry>, trades: seq<Trade>)
  {
    && |trades| <= |es|
    && (forall k :: 0 <= k < |trades| ==>
          && Fill(s, limit, volume, es, k) > 0
          && trades[k] == Trade(id, es[k].id, es[k].price, Fill(s, limit, volume, es, k)))
    && (forall k :: |trades| <= k < |es| ==> Fill(s, limit, volume, es, k) == 0)
  }

  /** What is left of `es`: only the last order hit can survive, reduced, and
      everything behind it is untouched. */
  ghost predicate RestIsWaterfall(es: seq<Entry>, trades: seq<Trade>, rest: seq<Entry>) {
    && |trades| <= |es|
    && var n := |trades|;
       var whole := if n > 0 && trades[n - 1].volume < es[n - 1].volume then n - 1 else n;
       && (forall k :: 0 <= k < whole ==> trades[k].volume == es[k].volume)
       && rest == if whole == n then es[n..]
                  else [es[whole].(volume := es[whole].volume - trades[whole].volume)] + es[n..]
  }

  function TradedVolume(trades: seq<Trade>): int {
    if trades == [] then 0 else trades[0].volume + TradedVolume(trades[1..])
  }

  lemma TotalOfPrefix(es: seq<Entry>, i: nat)
    requires 0 < i <= |es|
    ensures Total(es[..i]) == es[0].volume + Total(es[1..][..i - 1])
  {
    assert es[..i][1..] == es[1..][..i - 1];
  }

  lemma {:induction false} TotalNonNegative(es: seq<Entry>)
    requires Positive(es)
    ensures Total(es) >= 0
    ensures es != [] ==> Total(es) > 0
  {
    if es != [] {
      TotalNonNegative(es[1..]);
    }
  }

  lemma {:induction false} FillOfTail(s: Side, limit: Price, volume: Volume, es: seq<Entry>, k: nat)
    requires k + 1 < |es|
    ensures Fill(s, limit, volume, es, k + 1) == Fill(s, limit, volume - es[0].volume, es[1..], k)
  {
    TotalOfPrefix(es, k + 1);
  }

  lemma NoFillBehind(s: Side, limit: Price, volume: Volume, es: seq<Entry>)
    requires Positive(es) && es != [] && Sorted(Opposed(s), es)
    requires volume <= es[0].volume || !Crosses(s, limit, es[0].price)
    ensures forall k :: 0 < k < |es| ==> Fill(s, limit, volume, es, k) == 0
  {
    forall k | 0 < k < |es|
      ensures Fill(s, limit, volume, es, k) == 0
    {
      TotalOfPrefix(es, k);
      TotalNonNegative(es[1..][..k - 1]);
      assert !Better(Opposed(s), es[k].price, es[0].price);
    }
  }

  lemma {:induction false} FillsStep(
      id: OrderId, s: Side, limit: Price, volume: Volume, es: seq<Entry>, behind: seq<Trade>)
    requires Positive(es) && es != [] && volume >= es[0].volume && Crosses(s, limit, es[0].price)
    requires FillsAreWaterfall(id, s, limit, volume - es[0].volume, es[1..], behind)
    ensures FillsAreWaterfall(id, s, limit, volume, es,
                              [Trade(id, es[0].id, es[0].price, es[0].volume)] + behind)
  {
    forall k | 0 < k < |es|
      ensures Fill(s, limit, volume, es, k) == Fill(s, limit, volume - es[0].volume, es[1..], k - 1)
    {
      FillOfTail(s, limit, volume, es, k - 1);
    }
    assert Fill(s, limit, volume, es, 0) == es[0].volume;
  }

  /** Every fill of the greedy matcher in closed form. */
  lemma {:induction false} SweepFillsAreWaterfall(
      id: OrderId, s: Side, limit: Price, volume: Volume, es: seq<Entry>)
    requires Sorted(Opposed(s), es) && Positive(es) && volume >= 0
    ensures FillsAreWaterfall(id, s, limit, volume, es, Sweep(id, s, limit, volume, es).trades)
    decreases |es|
  {
    if es != [] {
      if volume <= 0 || !Crosses(s, limit, es[0].price) || volume < es[0].volume {
        NoFillBehind(s, limit, volume, es);
      } else {
        SweepFillsAreWaterfall(id, s, limit, volume - es[0].volume, es[1..]);
        FillsStep(id, s, limit, volume, es, Sweep(id, s, limit, volume - es[0].volume, es[1..]).trades);
      }
    }
  }

  lemma RestStep(es: seq<Entry>, t: Trade, behind: seq<Trade>, rest: seq<Entry>)
    requires es != [] && t.volume == es[0].volume
    requires RestIsWaterfall(es[1..], behind, rest)
    ensures RestIsWaterfall(es, [t] + behind, rest)
    ensures TradedVolume([t] + behind) == t.volume + TradedVolume(behind)
  {
  }

  lemma RestFirst(es: seq<Entry>, t: Trade)
    requires es != [] && 0 < t.volume < es[0].volume
    ensures RestIsWaterfall(es, [t], [es[0].(volume := es[0].volume - t.volume)] + es[1..])
    ensures TradedVolume([t]) == t.volume
  {
  }

  /** Everything the greedy matcher leaves behind in closed form, and no volume
      lost: remainder plus trades is what came in. */
  lemma {:induction false} SweepRestIsWaterfall(
      id: OrderId, s: Side, limit: Price, volume: Volume, es: seq<Entry>)
    requires Positive(es) && volume >= 0
    ensures var r := Sweep(id, s, limit, volume, es);
      && RestIsWaterfall(es, r.trades, r.rest)
      && r.remainder == volume - TradedVolume(r.trades)
    decreases |es|
  {
    hide RestIsWaterfall, TradedVolume, Crosses;
    if volume <= 0 || es == [] || !Crosses(s, limit, es[0].price) {
      NothingTraded(es);
    } else if volume < es[0].volume {
      RestFirst(es, Trade(id, es[0].id, es[0].price, volume));
    } else {
      var t := Sweep(id, s, limit, volume - es[0].volume, es[1..]);
      SweepRestIsWaterfall(id, s, limit, volume - es[0].volume, es[1..]);
      RestStep(es, Trade(id, es[0].id, es[0].price, es[0].volume), t.trades, t.rest);
    }
  }

  lemma NothingTraded(es: seq<Entry>)
    ensures RestIsWaterfall(es, [], es) && TradedVolume([]) == 0
  {
  }

  /** Trades print at monotone prices, all within the limit, and whatever is in
      front of the last order hit is consumed whole. */
  lemma {:induction false} PriceTimePriority(id: OrderId, s: Side, limit: Price, volume: Volume, es: seq<Entry>)
    requires Sorted(Opposed(s), es) && Positive(es) && volume >= 0
    ensures var t := Sweep(id, s, limit, volume, es).trades;
      && |t| <= |es|
      && (forall k :: 0 <= k < |t| ==> Crosses(s, limit, t[k].price) && t[k].volume > 0)
      && (forall j, k :: 0 <= j < k < |t| ==> !Better(Opposed(s), t[k].price, t[j].price))
      && (forall j :: 0 <= j < |t| - 1 ==> t[j].resting == es[j].id && t[j].volume == es[j].volume)
  {
    SweepFillsAreWaterfall(id, s, limit, volume, es);
    SweepRestIsWaterfall(id, s, limit, volume, es);
  }

  // ------------------------------------------------------------ fill-or-kill

  /** All the volume an order of side `s` limited at `limit` could reach. */
  function Reachable(s: Side, limit: Price, es: seq<Entry>): int {
    if es == [] then 0
    else (if Crosses(s, limit, es[0].price) then es[0].volume else 0) + Reachable(s, limit, es[1..])
  }

  lemma {:induction false} NothingReachable(s: Side, limit: Price, es: seq<Entry>)
    requires Sorted(Opposed(s), es)
    requires es != [] ==> !Crosses(s, limit, es[0].price)
    ensures Reachable(s, limit, es) == 0
  {
    if |es| > 1 {
      assert !Better(Opposed(s), es[1].price, es[0].price);
      NothingReachable(s, limit, es[1..]);
    }
  }

  lemma {:induction false} ReachableNonNegative(s: Side, limit: Price, es: seq<Entry>)
    requires Positive(es)
    ensures Reachable(s, limit, es) >= 0
  {
    if es != [] {
      ReachableNonNegative(s, limit, es[1..]);
    }
  }

  /** The remainder of a sweep is exactly what the reachable volume does not cover. */
  lemma {:induction false} RemainderIsShortfall(id: OrderId, s: Side, limit: Price, volume: Volume, es: seq<Entry>)
    requires Sorted(Opposed(s), es) && Positive(es) && volume >= 0
    ensures var r := Sweep(id, s, limit, volume, es).remainder;
      r == if Reachable(s, limit, es) >= volume then 0 else volume - Reachable(s, limit, es)
    decreases |es|
  {
    ReachableNonNegative(s, limit, es);
    if es == [] {
    } else if !Crosses(s, limit, es[0].price) {
      NothingReachable(s, limit, es);
    } else {
      ReachableNonNegative(s, limit, es[1..]);
      if volume >= es[0].volume {
        RemainderIsShortfall(id, s, limit, volume - es[0].volume, es[1..]);
      }
    }
  }

  /** A fill-or-kill order trades all of its volume or changes nothing at all,
      and never rests. */
  lemma {:induction false} FillOrKillIsAllOrNothing(b: Book, o: Order)
    requires WellFormed(b) && o.kind.FillOrKill? && o.volume > 0
    ensures var p := Place(b, o);
      if Reachable(o.side, o.price, b.Of(Opposed(o.side))) >= o.volume
      then TradedVolume(p.trades) == o.volume && p.book.Of(o.side) == b.Of(o.side)
      else p == Placed(b, [])
  {
    var es := b.Of(Opposed(o.side));
    RemainderIsShortfall(o.id, o.side, o.price, o.volume, es);
    SweepRestIsWaterfall(o.id, o.side, o.price, o.volume, es);
  }

  // -------------------------------------------------------------- additivity

  /** How much of the orders identified by `resting` a run of trades consumed. */
  function FilledOf(trades: seq<Trade>, resting: OrderId): int {
    if trades == [] then 0
    else (if trades[0].resting == resting then trades[0].volume else 0) + FilledOf(trades[1..], resting)
  }

  lemma FilledOfCons(t: Trade, trades: seq<Trade>, resting: OrderId)
    ensures FilledOf([t] + trades, resting)
         == (if t.resting == resting then t.volume else 0) + FilledOf(trades, resting)
  {
  }

  ghost predicate Agree(first: Swept, second: Swept, once: Swept, resting: OrderId) {
    && second.rest == once.rest
    && first.remainder + second.remainder == once.remainder
    && FilledOf(first.trades, resting) + FilledOf(second.trades, resting) == FilledOf(once.trades, resting)
  }

  /** The front order is split between the two sweeps. */
  lemma {:induction false} AdditiveAtSplit(
      id1: OrderId, id2: OrderId, id: OrderId, s: Side, limit: Price,
      v1: Volume, v2: Volume, es: seq<Entry>, resting: OrderId)
    requires es != [] && Crosses(s, limit, es[0].price) && 0 < v1 < es[0].volume && v2 >= 0
    ensures var first := Sweep(id1, s, limit, v1, es);
      Agree(first, Sweep(id2, s, limit, v2, first.rest), Sweep(id, s, limit, v1 + v2, es), resting)
  {
    var e := es[0];
    var first := Sweep(id1, s, limit, v1, es);
    var left := e.(volume := e.volume - v1);
    assert first.rest == [left] + es[1..] && first.rest[1..] == es[1..] && first.rest[0] == left;
    if v1 + v2 >= e.volume {
      var v := v1 + v2 - e.volume;
      SweepSkipsNothing(id2, id, s, limit, v, es[1..], resting);
      FilledOfCons(Trade(id2, e.id, e.price, left.volume), Sweep(id2, s, limit, v, es[1..]).trades, resting);
      FilledOfCons(Trade(id, e.id, e.price, e.volume), Sweep(id, s, limit, v, es[1..]).trades, resting);
    }
  }

  /** The first sweep consumes the front order whole. */
  lemma {:induction false} AdditiveBehind(
      id1: OrderId, id2: OrderId, id: OrderId, s: Side, limit: Price,
      v1: Volume, v2: Volume, es: seq<Entry>, resting: OrderId)
    requires es != [] && Crosses(s, limit, es[0].price) && 0 < es[0].volume <= v1 && v2 >= 0
    requires var first := Sweep(id1, s, limit, v1 - es[0].volume, es[1..]);
      Agree(first, Sweep(id2, s, limit, v2, first.rest),
            Sweep(id, s, limit, v1 - es[0].volume + v2, es[1..]), resting)
    ensures var first := Sweep(id1, s, limit, v1, es);
      Agree(first, Sweep(id2, s, limit, v2, first.rest), Sweep(id, s, limit, v1 + v2, es), resting)
  {
  }

  /** Two sweeps in a row leave what one sweep of their sum leaves, and take as
      much from every resting order. */
  lemma {:induction false} SweepIsAdditive(
      id1: OrderId, id2: OrderId, id: OrderId, s: Side, limit: Price,
      v1: Volume, v2: Volume, es: seq<Entry>, resting: OrderId)
    requires Positive(es) && v1 >= 0 && v2 >= 0
    ensures var first := Sweep(id1, s, limit, v1, es);
      Agree(first, Sweep(id2, s, limit, v2, first.rest), Sweep(id, s, limit, v1 + v2, es), resting)
    decreases |es|
  {
    if es == [] || !Crosses(s, limit, es[0].price) {
    } else if v1 <= 0 {
      SweepSkipsNothing(id2, id, s, limit, v2, es, resting);
    } else if v1 < es[0].volume {
      AdditiveAtSplit(id1, id2, id, s, limit, v1, v2, es, resting);
    } else {
      SweepIsAdditive(id1, id2, id, s, limit, v1 - es[0].volume, v2, es[1..], resting);
      AdditiveBehind(id1, id2, id, s, limit, v1, v2, es, resting);
    }
  }

  /** The aggressor's id decides nothing about a sweep. */
  lemma {:induction false} SweepSkipsNothing(
      id1: OrderId, id2: OrderId, s: Side, limit: Price, volume: Volume, es: seq<Entry>, resting: OrderId)
    ensures var a := Sweep(id1, s, limit, volume, es);
            var b := Sweep(id2, s, limit, volume, es);
      a.rest == b.rest && a.remainder == b.remainder
      && FilledOf(a.trades, resting) == FilledOf(b.trades, resting)
    decreases |es|
  {
    if volume > 0 && es != [] && Crosses(s, limit, es[0].price) && volume >= es[0].volume {
      SweepSkipsNothing(id1, id2, s, limit, volume - es[0].volume, es[1..], resting);
    }
  }

  /** Splitting one immediate-or-cancel order in two changes neither the book
      nor what any resting order sells. */
  lemma {:induction false} ImmediateOrCancelIsAdditive(b: Book, o1: Order, o2: Order, o: Order, resting: OrderId)
    requires WellFormed(b)
    requires o1.kind.ImmediateOrCancel? && o2.kind.ImmediateOrCancel? && o.kind.ImmediateOrCancel?
    requires o1.side == o2.side == o.side && o1.price == o2.price == o.price
    requires o1.volume >= 0 && o2.volume >= 0 && o.volume == o1.volume + o2.volume
    ensures var p1 := Place(b, o1);
            var p2 := Place(p1.book, o2);
            var p := Place(b, o);
      && p2.book == p.book
      && FilledOf(p1.trades, resting) + FilledOf(p2.trades, resting) == FilledOf(p.trades, resting)
  {
    SweepIsAdditive(o1.id, o2.id, o.id, o.side, o.price, o1.volume, o2.volume,
                    b.Of(Opposed(o.side)), resting);
  }
}
