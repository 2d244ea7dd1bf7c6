/** What each change to the book leaves behind, in closed form: order by order, with
    nothing said by way of the recursion that computes it. */
module BookLaws {
  import opened Commons
  import opened Market
  import opened PriceTime
  import opened MatchingLaws
  import opened BookRuns
  import opened LevelSets

  // ----------------------------------------------------------------- resting

  /** `rest` is `es` with `e` behind all that is no worse and ahead of all that is. */
  ghost predicate StandsLast(s: Side, es: seq<Entry>, e: Entry, rest: seq<Entry>) {
    exists k :: 0 <= k <= |es| && StandsAt(s, es, e, rest, k)
  }

  ghost predicate StandsAt(s: Side, es: seq<Entry>, e: Entry, rest: seq<Entry>, k: nat)
    requires k <= |es|
  {
    && rest == es[..k] + [e] + es[k..]
    && (forall j :: 0 <= j < k ==> !Better(s, e.price, es[j].price))
    && (forall j :: k <= j < |es| ==> Better(s, e.price, es[j].price))
  }

  lemma {:induction false} EnqueueStandsLast(s: Side, es: seq<Entry>, e: Entry)
    requires Sorted(s, es)
    ensures StandsLast(s, es, e, Enqueue(s, es, e))
  {
    if es == [] || Better(s, e.price, es[0].price) {
      assert es[..0] + [e] + es[0..] == [e] + es;
      assert StandsAt(s, es, e, Enqueue(s, es, e), 0);
    } else {
      var behind := Enqueue(s, es[1..], e);
      EnqueueStandsLast(s, es[1..], e);
      var k: nat :| k <= |es[1..]| && StandsAt(s, es[1..], e, behind, k);
      StandsBehind(s, es, e, behind, k);
    }
  }

  lemma StandsBehind(s: Side, es: seq<Entry>, e: Entry, behind: seq<Entry>, k: nat)
    requires es != [] && !Better(s, e.price, es[0].price)
    requires k <= |es[1..]| && StandsAt(s, es[1..], e, behind, k)
    ensures StandsAt(s, es, e, [es[0]] + behind, k + 1)
  {
    assert es[..k + 1] == [es[0]] + es[1..][..k] && es[k + 1..] == es[1..][k..];
    assert [es[0]] + (es[1..][..k] + [e] + es[1..][k..]) == es[..k + 1] + [e] + es[k + 1..];
    forall j | 0 <= j < k + 1
      ensures !Better(s, e.price, es[j].price)
    {
      assert j > 0 ==> es[j] == es[1..][j - 1];
    }
    forall j | k + 1 <= j < |es|
      ensures Better(s, e.price, es[j].price)
    {
      assert es[j] == es[1..][j - 1];
    }
  }

  /** Adding without matching: the order stands last at its price and the other side
      is as it was. */
  lemma AddClosedForm(b: Book, s: Side, e: Entry)
    requires Ordered(b)
    ensures StandsLast(s, b.Of(s), e, Add(b, s, e).Of(s))
    ensures Add(b, s, e).Of(Opposed(s)) == b.Of(Opposed(s))
  {
    hide StandsLast, Enqueue;
    EnqueueStandsLast(s, b.Of(s), e);
  }

  // ----------------------------------------------------------------- placing

  /** An order that changes nothing: it has no volume, or must fill in full and cannot. */
  ghost predicate Declined(b: Book, o: Order) {
    o.volume <= 0 || (o.kind.FillOrKill? && Reachable(o.side, o.price, b.Of(Opposed(o.side))) < o.volume)
  }

  /** Placing an order of any type: a declined one changes nothing. Of any other, every
      fill is the closed-form one, the opposite side loses exactly the fills, and what
      is left of a good-till-cancelled order, and of no other, stands last at its price. */
  lemma PlaceClosedForm(b: Book, o: Order)
    requires WellFormed(b)
    ensures var p := Place(b, o);
            var es, mine := b.Of(Opposed(o.side)), b.Of(o.side);
            var left := o.volume - TradedVolume(p.trades);
      if Declined(b, o) then p == Placed(b, [])
      else
        && FillsAreWaterfall(o.id, o.side, o.price, o.volume, es, p.trades)
        && RestIsWaterfall(es, p.trades, p.book.Of(Opposed(o.side)))
        && if o.kind.GoodTillCanceled? && left > 0
           then StandsLast(o.side, mine, Entry(o.price, o.id, left), p.book.Of(o.side))
           else p.book.Of(o.side) == mine
  {
    hide Sweep, Enqueue, StandsLast, FillsAreWaterfall, RestIsWaterfall, Reachable, TradedVolume;
    if o.volume > 0 {
      var es := b.Of(Opposed(o.side));
      SweepFillsAreWaterfall(o.id, o.side, o.price, o.volume, es);
      SweepRestIsWaterfall(o.id, o.side, o.price, o.volume, es);
      RemainderIsShortfall(o.id, o.side, o.price, o.volume, es);
      EnqueueStandsLast(o.side, b.Of(o.side),
                        Entry(o.price, o.id, Sweep(o.id, o.side, o.price, o.volume, es).remainder));
    }
  }

  // ---------------------------------------------------------------- deleting

  /** What order `j` of a level keeps when `volume` is deleted oldest first. */
  function Left(level: seq<Entry>, volume: Volume, j: nat): Volume
    requires j < |level|
  {
    var reaching := volume - Total(level[..j]);
    level[j].volume - Min(if reaching > 0 then reaching else 0, level[j].volume)
  }

  /** `rest` is `level` with every order cut to what it keeps, and without those that
      keep nothing, which are the oldest. */
  ghost predicate DrainIsWaterfall(level: seq<Entry>, volume: Volume, rest: seq<Entry>) {
    |rest| <= |level| &&
    var gone := |level| - |rest|;
    && (forall j :: 0 <= j < gone ==> Left(level, volume, j) == 0)
    && (forall j :: gone <= j < |level| ==> Left(level, volume, j) > 0)
    && (forall j :: gone <= j < |level| ==> rest[j - gone] == level[j].(volume := Left(level, volume, j)))
  }

  lemma AtPriceCons(e: Entry, es: seq<Entry>, price: Price)
    ensures AtPrice([e] + es, price) == if e.price == price then [e] + AtPrice(es, price) else AtPrice(es, price)
  {
    assert ([e] + es)[1..] == es;
  }

  lemma {:induction false} ReduceAtPrice(es: seq<Entry>, at: Price, volume: Volume, price: Price)
    ensures AtPrice(Reduce(es, at, volume), price)
         == if price == at then Reduce(AtPrice(es, at), at, volume) else AtPrice(es, price)
    decreases |es|
  {
    hide AtPrice;
    if es == [] {
      NothingAtPrice(at);
      NothingAtPrice(price);
    } else if volume > 0 {
      assert es == [es[0]] + es[1..];
      AtPriceCons(es[0], es[1..], at);
      AtPriceCons(es[0], es[1..], price);
      if es[0].price != at {
        ReduceAtPrice(es[1..], at, volume, price);
        AtPriceCons(es[0], Reduce(es[1..], at, volume), price);
      } else if volume < es[0].volume {
        AtPriceCons(es[0].(volume := es[0].volume - volume), es[1..], price);
      } else {
        ReduceAtPrice(es[1..], at, volume - es[0].volume, price);
      }
    }
  }

  lemma NothingAtPrice(price: Price)
    ensures AtPrice([], price) == []
  {
  }

  lemma {:induction false} AtPriceIsLevel(es: seq<Entry>, price: Price)
    requires Positive(es)
    ensures forall j :: 0 <= j < |AtPrice(es, price)| ==> AtPrice(es, price)[j].price == price
    ensures Positive(AtPrice(es, price))
  {
    if es != [] {
      AtPriceIsLevel(es[1..], price);
    }
  }

  lemma LeftOfTail(level: seq<Entry>, volume: Volume, j: nat)
    requires j + 1 < |level|
    ensures Left(level, volume, j + 1) == Left(level[1..], volume - level[0].volume, j)
  {
    TotalOfPrefix(level, j + 1);
  }

  lemma UntouchedBehind(level: seq<Entry>, volume: Volume, j: nat)
    requires Positive(level) && 0 < j < |level| && volume <= level[0].volume
    ensures Left(level, volume, j) == level[j].volume
  {
    TotalOfPrefix(level, j);
    TotalNonNegative(level[1..][..j - 1]);
  }

  lemma DrainsFirst(level: seq<Entry>, volume: Volume)
    requires Positive(level) && level != [] && 0 < volume < level[0].volume
    ensures DrainIsWaterfall(level, volume, [level[0].(volume := level[0].volume - volume)] + level[1..])
  {
    assert level[..0] == [];
    forall j | 0 < j < |level|
      ensures Left(level, volume, j) == level[j].volume
    {
      UntouchedBehind(level, volume, j);
    }
  }

  lemma DrainsNothing(level: seq<Entry>, volume: Volume)
    requires Positive(level) && (volume <= 0 || level == [])
    ensures DrainIsWaterfall(level, volume, level)
  {
    forall j | 0 <= j < |level|
      ensures Left(level, volume, j) == level[j].volume
    {
      TotalNonNegative(level[..j]);
    }
  }

  lemma DrainsWhole(level: seq<Entry>, volume: Volume, rest: seq<Entry>)
    requires Positive(level) && level != [] && volume >= level[0].volume
    requires DrainIsWaterfall(level[1..], volume - level[0].volume, rest)
    ensures DrainIsWaterfall(level, volume, rest)
  {
    assert level[..0] == [];
    assert Left(level, volume, 0) == 0;
    forall j | 0 < j < |level|
      ensures Left(level, volume, j) == Left(level[1..], volume - level[0].volume, j - 1)
    {
      LeftOfTail(level, volume, j - 1);
    }
  }

  lemma {:induction false} ReduceDrains(level: seq<Entry>, at: Price, volume: Volume)
    requires Positive(level) && forall j :: 0 <= j < |level| ==> level[j].price == at
    ensures DrainIsWaterfall(level, volume, Reduce(level, at, volume))
    decreases |level|
  {
    hide DrainIsWaterfall;
    if volume <= 0 || level == [] {
      DrainsNothing(level, volume);
    } else if volume < level[0].volume {
      DrainsFirst(level, volume);
    } else {
      ReduceDrains(level[1..], at, volume - level[0].volume);
      DrainsWhole(level, volume, Reduce(level[1..], at, volume - level[0].volume));
    }
  }

  /** Deleting volume at a price touches the orders at that price and side alone, and
      of those takes the volume oldest first. */
  lemma DeleteClosedForm(b: Book, s: Side, at: Price, volume: Volume, t: Side, price: Price)
    requires Ordered(b)
    ensures var was, now := AtPrice(b.Of(t), price), AtPrice(Delete(b, s, at, volume).Of(t), price);
      if t == s && price == at then DrainIsWaterfall(was, volume, now) else now == was
  {
    hide AtPrice, Reduce, DrainIsWaterfall;
    ReduceAtPrice(b.Of(s), at, volume, price);
    AtPriceIsLevel(b.Of(s), at);
    ReduceDrains(AtPrice(b.Of(s), at), at, volume);
  }

  lemma GoneBefore(level: seq<Entry>, volume: Volume, rest: seq<Entry>, j: nat)
    requires DrainIsWaterfall(level, volume, rest) && j < |level|
    ensures Left(level, volume, j) == 0 <==> j < |level| - |rest|
  {
    hide Left;
  }

  lemma DrainsAlike(level: seq<Entry>, volume: Volume, x: seq<Entry>, y: seq<Entry>)
    requires DrainIsWaterfall(level, volume, x) && DrainIsWaterfall(level, volume, y)
    ensures x == y
  {
    hide Left;
    var p, q := |level| - |x|, |level| - |y|;
    if p != q {
      GoneBefore(level, volume, x, Min(p, q));
      GoneBefore(level, volume, y, Min(p, q));
    }
    forall j | 0 <= j < |x|
      ensures x[j] == y[j]
    {
      assert x[p + j - p] == level[p + j].(volume := Left(level, volume, p + j)) == y[p + j - p];
    }
  }

  /** That fixes the whole book: one in priority order that meets the closed form at
      every price is the one deleting leaves. */
  lemma DeleteIsDetermined(b: Book, s: Side, at: Price, volume: Volume, c: Book)
    requires Ordered(b) && Ordered(c)
    requires forall t: Side, price ::
               var was, now := AtPrice(b.Of(t), price), AtPrice(c.Of(t), price);
               if t == s && price == at then DrainIsWaterfall(was, volume, now) else now == was
    ensures c == Delete(b, s, at, volume)
  {
    hide AtPrice, DrainIsWaterfall, Delete;
    var d := Delete(b, s, at, volume);
    OpKeeps(b, DeleteOp(s, at, volume));
    forall t: Side, price
      ensures AtPrice(c.Of(t), price) == AtPrice(d.Of(t), price)
    {
      DeleteClosedForm(b, s, at, volume, t, price);
      if t == s && price == at {
        DrainsAlike(AtPrice(b.Of(t), price), volume, AtPrice(c.Of(t), price), AtPrice(d.Of(t), price));
      }
    }
    LevelsDetermine(Bid, c.Of(Bid), d.Of(Bid));
    LevelsDetermine(Ask, c.Of(Ask), d.Of(Ask));
  }
}
