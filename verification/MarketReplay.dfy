/** Replaying a depth feed: a snapshot and then absolute sizes per price, each set
    on the engine in turn, read back as the aggregate volume at every price. */
module MarketReplay {
  import opened Market
  import opened PriceTime
  import opened BookRep
  import opened BookMoves
  import opened OrderBooks
  import opened BookRuns
  import opened LevelSets

  datatype PriceLevel = PriceLevel(price: Price, volume: Volume)

  /** A snapshot's levels, or one diff event's: the sizes to set on each side. */
  datatype Depth = Depth(bids: seq<PriceLevel>, asks: seq<PriceLevel>)

  // ------------------------------------------------------------ specification

  function SetAll(b: Book, s: Side, levels: seq<PriceLevel>): Book {
    if levels == [] then b
    else
      var last := |levels| - 1;
      Overwrite(SetAll(b, s, levels[..last]), s, levels[last].price, levels[last].volume)
  }

  function SetDepth(b: Book, d: Depth): Book {
    SetAll(SetAll(b, Bid, d.bids), Ask, d.asks)
  }

  function Replay(b: Book, feed: seq<Depth>): Book {
    if feed == [] then b else SetDepth(Replay(b, feed[..|feed| - 1]), feed[|feed| - 1])
  }

  /** Nothing the book holds is identified: the condition for level updates. */
  ghost predicate AllAnonymous(b: Book) {
    forall s: Side, j :: 0 <= j < |b.Of(s)| ==> b.Of(s)[j].id == ANONYMOUS
  }

  /** No prefix of the updates needs more than `capacity` resting orders. */
  ghost predicate Fits(b: Book, s: Side, levels: seq<PriceLevel>, capacity: nat) {
    forall j :: 0 <= j <= |levels| ==> SetAll(b, s, levels[..j]).Count() <= capacity
  }

  /** The aggregate volume at every price, which is all a depth feed describes. */
  function VolumeIn(b: Book, s: Side, price: Price): Volume {
    VolumeAt(b.Of(s), price)
  }

  /** The last size written for a price, 0 if that removed it. */
  function LastWrite(levels: seq<PriceLevel>, price: Price, initial: Volume): Volume {
    if levels == [] then initial
    else
      var last := levels[|levels| - 1];
      if last.price == price then (if last.volume <= 0 then 0 else last.volume)
      else LastWrite(levels[..|levels| - 1], price, initial)
  }

  function Writes(d: Depth, s: Side): seq<PriceLevel> {
    if s.Bid? then d.bids else d.asks
  }

  function LastInFeed(feed: seq<Depth>, s: Side, price: Price, initial: Volume): Volume {
    if feed == [] then initial
    else LastWrite(Writes(feed[|feed| - 1], s), price, LastInFeed(feed[..|feed| - 1], s, price, initial))
  }

  // ------------------------------------------------- what one update means

  lemma {:induction false} VolumeEnqueued(s: Side, es: seq<Entry>, e: Entry, price: Price)
    ensures VolumeAt(Enqueue(s, es, e), price) == VolumeAt(es, price) + (if e.price == price then e.volume else 0)
  {
    if es == [] || Better(s, e.price, es[0].price) {
      assert ([e] + es)[1..] == es;
    } else {
      VolumeEnqueued(s, es[1..], e, price);
      assert ([es[0]] + Enqueue(s, es[1..], e))[1..] == Enqueue(s, es[1..], e);
    }
  }

  lemma {:induction false} VolumeWithoutPrice(es: seq<Entry>, at: Price, price: Price)
    ensures VolumeAt(WithoutPrice(es, at), price) == if at == price then 0 else VolumeAt(es, price)
  {
    if es != [] {
      VolumeWithoutPrice(es[1..], at, price);
      assert ([es[0]] + WithoutPrice(es[1..], at))[1..] == WithoutPrice(es[1..], at);
      assert [] + WithoutPrice(es[1..], at) == WithoutPrice(es[1..], at);
    }
  }

  /** Setting a level changes the volume at that price on that side, to that size,
      and no other, however many orders made the level up before. */
  lemma OverwriteSetsVolume(b: Book, s: Side, at: Price, volume: Volume, t: Side, price: Price)
    ensures VolumeIn(Overwrite(b, s, at, volume), t, price)
         == if t == s && price == at then (if volume <= 0 then 0 else volume) else VolumeIn(b, t, price)
  {
    hide Enqueue, WithoutPrice, VolumeAt, OldestAt;
    var es := WithoutPrice(b.Of(s), at);
    VolumeWithoutPrice(b.Of(s), at, price);
    VolumeEnqueued(s, es, Entry(at, OldestAt(b.Of(s), at), volume), price);
  }

  lemma {:induction false} SetAllIsLastWrite(b: Book, s: Side, levels: seq<PriceLevel>, t: Side, price: Price)
    ensures VolumeIn(SetAll(b, s, levels), t, price)
         == if t == s then LastWrite(levels, price, VolumeIn(b, t, price)) else VolumeIn(b, t, price)
  {
    hide Overwrite, VolumeIn;
    if levels != [] {
      var last := |levels| - 1;
      SetAllIsLastWrite(b, s, levels[..last], t, price);
      OverwriteSetsVolume(SetAll(b, s, levels[..last]), s, levels[last].price, levels[last].volume, t, price);
    }
  }

  /** Replaying any feed onto any book leaves at every price the last size written
      for it, or what rested there before if none was. */
  lemma {:induction false} ReplayIsLastWrite(b: Book, feed: seq<Depth>, s: Side, price: Price)
    ensures VolumeIn(Replay(b, feed), s, price) == LastInFeed(feed, s, price, VolumeIn(b, s, price))
  {
    hide VolumeIn, SetAll, LastWrite;
    if feed != [] {
      var d := feed[|feed| - 1];
      var before := Replay(b, feed[..|feed| - 1]);
      ReplayIsLastWrite(b, feed[..|feed| - 1], s, price);
      SetAllIsLastWrite(before, Bid, d.bids, s, price);
      SetAllIsLastWrite(SetAll(before, Bid, d.bids), Ask, d.asks, s, price);
    }
  }

  ghost predicate Mentions(writes: seq<PriceLevel>, price: Price) {
    exists i :: 0 <= i < |writes| && writes[i].price == price
  }

  lemma {:induction false} LastWriteAt(writes: seq<PriceLevel>, i: nat, price: Price, initial: Volume)
    requires i < |writes| && writes[i].price == price
    requires forall j :: i < j < |writes| ==> writes[j].price != price
    ensures LastWrite(writes, price, initial) == if writes[i].volume <= 0 then 0 else writes[i].volume
  {
    if i + 1 < |writes| {
      assert writes[|writes| - 1].price != price;
      LastWriteAt(writes[..|writes| - 1], i, price, initial);
    }
  }

  lemma {:induction false} NoWriteAt(writes: seq<PriceLevel>, price: Price, initial: Volume)
    requires !Mentions(writes, price)
    ensures LastWrite(writes, price, initial) == initial
  {
    if writes != [] {
      assert writes[|writes| - 1].price != price;
      NoWriteAt(writes[..|writes| - 1], price, initial);
    }
  }

  lemma {:induction false} QuietSince(feed: seq<Depth>, k: nat, s: Side, price: Price, initial: Volume)
    requires k <= |feed| && forall e :: k <= e < |feed| ==> !Mentions(Writes(feed[e], s), price)
    ensures LastInFeed(feed, s, price, initial) == LastInFeed(feed[..k], s, price, initial)
    decreases |feed|
  {
    hide Mentions;
    if k == |feed| {
      assert feed[..k] == feed;
    } else {
      var last := |feed| - 1;
      assert feed[..last][..k] == feed[..k];
      NoWriteAt(Writes(feed[last], s), price, LastInFeed(feed[..last], s, price, initial));
      QuietSince(feed[..last], k, s, price, initial);
    }
  }

  lemma LastEvent(feed: seq<Depth>, k: nat, s: Side, price: Price, initial: Volume)
    requires k < |feed|
    ensures LastInFeed(feed[..k + 1], s, price, initial)
         == LastWrite(Writes(feed[k], s), price, LastInFeed(feed[..k], s, price, initial))
  {
    assert feed[..k + 1][..k] == feed[..k];
  }

  /** In plain terms: if write `i` of event `k` is the last of the whole feed at a price
      of a side, its size is what rests there afterwards, a non-positive one being
      nothing ... */
  lemma LastWriteWins(b: Book, feed: seq<Depth>, s: Side, price: Price, k: nat, i: nat)
    requires k < |feed|
    requires var writes := if s.Bid? then feed[k].bids else feed[k].asks;
      && i < |writes| && writes[i].price == price
      && forall j :: i < j < |writes| ==> writes[j].price != price
    requires forall e :: k < e < |feed| ==> !Mentions(Writes(feed[e], s), price)
    ensures var volume := (if s.Bid? then feed[k].bids else feed[k].asks)[i].volume;
      Total(AtPrice(Replay(b, feed).Of(s), price)) == if volume <= 0 then 0 else volume
  {
    hide Mentions, Replay, AtPrice, Total, VolumeAt, LastInFeed, LastWrite;
    var initial := VolumeIn(b, s, price);
    ReplayIsLastWrite(b, feed, s, price);
    VolumeIsTotal(Replay(b, feed).Of(s), price);
    QuietSince(feed, k + 1, s, price, initial);
    LastEvent(feed, k, s, price, initial);
    LastWriteAt(Writes(feed[k], s), i, price, LastInFeed(feed[..k], s, price, initial));
  }

  /** ... and a price no event mentions keeps the very orders that rested there. */
  lemma UnmentionedStays(b: Book, feed: seq<Depth>, s: Side, price: Price)
    requires forall e :: 0 <= e < |feed| ==> !Mentions(Writes(feed[e], s), price)
    ensures AtPrice(Replay(b, feed).Of(s), price) == AtPrice(b.Of(s), price)
  {
    hide Mentions, Replay, AtPrice;
    ReplayLevels(b, feed, s, price);
    QuietLevels(feed, s, price, AtPrice(b.Of(s), price));
  }

  lemma {:induction false} QuietLevels(feed: seq<Depth>, s: Side, price: Price, level: seq<Entry>)
    requires forall e :: 0 <= e < |feed| ==> !Mentions(Writes(feed[e], s), price)
    ensures LevelInFeed(feed, s, price, level) == level
  {
    hide Mentions;
    if feed != [] {
      var last := |feed| - 1;
      QuietLevels(feed[..last], s, price, level);
      QuietWrites(Writes(feed[last], s), price, level);
    }
  }

  lemma {:induction false} QuietWrites(writes: seq<PriceLevel>, price: Price, level: seq<Entry>)
    requires !Mentions(writes, price)
    ensures LevelWritten(writes, price, level) == level
  {
    if writes != [] {
      assert writes[|writes| - 1].price != price;
      QuietWrites(writes[..|writes| - 1], price, level);
    }
  }

  lemma {:induction false} LastWriteForgets(levels: seq<PriceLevel>, price: Price, x: Volume, y: Volume)
    ensures LastWrite(levels, price, x) == LastWrite(levels, price, y)
         || (LastWrite(levels, price, x) == x && LastWrite(levels, price, y) == y)
  {
    if levels != [] {
      LastWriteForgets(levels[..|levels| - 1], price, x, y);
    }
  }

  /** A feed either says nothing about a price or says the same whatever rested there. */
  lemma {:induction false} FeedForgets(feed: seq<Depth>, s: Side, price: Price, x: Volume, y: Volume)
    ensures LastInFeed(feed, s, price, x) == LastInFeed(feed, s, price, y)
         || (LastInFeed(feed, s, price, x) == x && LastInFeed(feed, s, price, y) == y)
  {
    if feed != [] {
      var rest := feed[..|feed| - 1];
      FeedForgets(rest, s, price, x, y);
      LastWriteForgets(Writes(feed[|feed| - 1], s), price,
                       LastInFeed(rest, s, price, x), LastInFeed(rest, s, price, y));
    }
  }

  /** Replaying the same feed again leaves the aggregate view as it was. */
  lemma ReplayIsIdempotent(b: Book, feed: seq<Depth>, s: Side, price: Price)
    ensures VolumeIn(Replay(Replay(b, feed), feed), s, price) == VolumeIn(Replay(b, feed), s, price)
  {
    hide VolumeIn, LastInFeed, Replay;
    var x := VolumeIn(b, s, price);
    ReplayIsLastWrite(b, feed, s, price);
    ReplayIsLastWrite(Replay(b, feed), feed, s, price);
    FeedForgets(feed, s, price, x, LastInFeed(feed, s, price, x));
  }

  // ------------------------------------------------ the replayed book itself

  /** What stands at a price after a run of writes, `level` having stood there. */
  function LevelWritten(writes: seq<PriceLevel>, price: Price, level: seq<Entry>): seq<Entry> {
    if writes == [] then level
    else
      var last := writes[|writes| - 1];
      var before := LevelWritten(writes[..|writes| - 1], price, level);
      if last.price == price then Set(before, price, last.volume) else before
  }

  function LevelInFeed(feed: seq<Depth>, s: Side, price: Price, level: seq<Entry>): seq<Entry> {
    if feed == [] then level
    else LevelWritten(Writes(feed[|feed| - 1], s), price, LevelInFeed(feed[..|feed| - 1], s, price, level))
  }

  lemma {:induction false} SetAllLevels(b: Book, s: Side, levels: seq<PriceLevel>, t: Side, price: Price)
    ensures AtPrice(SetAll(b, s, levels).Of(t), price)
         == if t == s then LevelWritten(levels, price, AtPrice(b.Of(t), price)) else AtPrice(b.Of(t), price)
  {
    hide Overwrite, AtPrice, Set;
    if levels != [] {
      var last := |levels| - 1;
      SetAllLevels(b, s, levels[..last], t, price);
      OverwriteAtPrice(SetAll(b, s, levels[..last]), s, levels[last].price, levels[last].volume, t, price);
    }
  }

  /** Replaying any feed onto any book leaves at every price the orders, ids included,
      that its writes make of those that stood there. */
  lemma {:induction false} ReplayLevels(b: Book, feed: seq<Depth>, s: Side, price: Price)
    ensures AtPrice(Replay(b, feed).Of(s), price) == LevelInFeed(feed, s, price, AtPrice(b.Of(s), price))
  {
    hide AtPrice, SetAll, LevelWritten;
    if feed != [] {
      var d := feed[|feed| - 1];
      var before := Replay(b, feed[..|feed| - 1]);
      ReplayLevels(b, feed[..|feed| - 1], s, price);
      SetAllLevels(before, Bid, d.bids, s, price);
      SetAllLevels(SetAll(before, Bid, d.bids), Ask, d.asks, s, price);
    }
  }

  /** The same writes made `fx` of `x` and `fy` of `y`: nothing, the same, or an order
      of one size that differs only in the id handed on. */
  ghost predicate Alike(x: seq<Entry>, y: seq<Entry>, fx: seq<Entry>, fy: seq<Entry>) {
    || (fx == x && fy == y)
    || fx == fy
    || (|fx| == 1 && |fy| == 1 && fx[0] == fy[0].(id := HeadId(x)) && fy[0].id == HeadId(y))
  }

  lemma {:induction false} WritesAlike(
      writes: seq<PriceLevel>, price: Price, x: seq<Entry>, y: seq<Entry>, fx: seq<Entry>, fy: seq<Entry>)
    requires Alike(x, y, fx, fy)
    ensures Alike(x, y, LevelWritten(writes, price, fx), LevelWritten(writes, price, fy))
  {
    if writes != [] {
      WritesAlike(writes[..|writes| - 1], price, x, y, fx, fy);
    }
  }

  lemma {:induction false} FeedAlike(feed: seq<Depth>, s: Side, price: Price, x: seq<Entry>, y: seq<Entry>)
    ensures Alike(x, y, LevelInFeed(feed, s, price, x), LevelInFeed(feed, s, price, y))
  {
    hide Alike, LevelWritten;
    if feed == [] {
      AlikeAtFirst(x, y);
    } else {
      var rest := feed[..|feed| - 1];
      FeedAlike(rest, s, price, x, y);
      WritesAlike(Writes(feed[|feed| - 1], s), price, x, y,
                  LevelInFeed(rest, s, price, x), LevelInFeed(rest, s, price, y));
    }
  }

  lemma AlikeAtFirst(x: seq<Entry>, y: seq<Entry>)
    ensures Alike(x, y, x, y)
  {
  }

  /** Whatever stood at a price, a feed changes nothing of what it left there. */
  lemma FeedSettles(feed: seq<Depth>, s: Side, price: Price, x: seq<Entry>)
    ensures LevelInFeed(feed, s, price, LevelInFeed(feed, s, price, x)) == LevelInFeed(feed, s, price, x)
  {
    hide LevelInFeed;
    FeedAlike(feed, s, price, x, LevelInFeed(feed, s, price, x));
  }

  lemma {:induction false} SetAllOrdered(b: Book, s: Side, levels: seq<PriceLevel>)
    requires Ordered(b)
    ensures Ordered(SetAll(b, s, levels))
  {
    hide Ordered, Overwrite;
    if levels != [] {
      var last := |levels| - 1;
      SetAllOrdered(b, s, levels[..last]);
      OverwriteKeeps(SetAll(b, s, levels[..last]), s, levels[last].price, levels[last].volume);
    }
  }

  lemma {:induction false} ReplayOrdered(b: Book, feed: seq<Depth>)
    requires Ordered(b)
    ensures Ordered(Replay(b, feed))
  {
    hide Ordered, SetAll;
    if feed != [] {
      var d := feed[|feed| - 1];
      var before := Replay(b, feed[..|feed| - 1]);
      ReplayOrdered(b, feed[..|feed| - 1]);
      SetAllOrdered(before, Bid, d.bids);
      SetAllOrdered(SetAll(before, Bid, d.bids), Ask, d.asks);
    }
  }

  /** On a book in priority order, replaying the same feed again changes nothing at
      all: no volume, no id, no place in line. */
  lemma ReplayTwice(b: Book, feed: seq<Depth>)
    requires Ordered(b)
    ensures Replay(Replay(b, feed), feed) == Replay(b, feed)
  {
    hide Replay, Ordered;
    SideSettles(b, feed, Bid);
    SideSettles(b, feed, Ask);
  }

  lemma SideSettles(b: Book, feed: seq<Depth>, s: Side)
    requires Ordered(b)
    ensures Replay(Replay(b, feed), feed).Of(s) == Replay(b, feed).Of(s)
  {
    hide AtPrice, LevelInFeed, Replay, Sorted;
    var once := Replay(b, feed);
    var twice := Replay(once, feed);
    ReplayOrdered(b, feed);
    ReplayOrdered(once, feed);
    forall price
      ensures AtPrice(twice.Of(s), price) == AtPrice(once.Of(s), price)
    {
      ReplayLevels(b, feed, s, price);
      ReplayLevels(once, feed, s, price);
      FeedSettles(feed, s, price, AtPrice(b.Of(s), price));
    }
    LevelsDetermine(s, twice.Of(s), once.Of(s));
  }

  // ------------------------------------------------------ anonymity is kept

  lemma {:induction false} EnqueueAnonymous(s: Side, es: seq<Entry>, e: Entry)
    requires e.id == ANONYMOUS && forall j :: 0 <= j < |es| ==> es[j].id == ANONYMOUS
    ensures forall j :: 0 <= j < |Enqueue(s, es, e)| ==> Enqueue(s, es, e)[j].id == ANONYMOUS
  {
    if es != [] && !Better(s, e.price, es[0].price) {
      EnqueueAnonymous(s, es[1..], e);
    }
  }

  lemma {:induction false} RemovalAnonymous(es: seq<Entry>, price: Price)
    requires forall j :: 0 <= j < |es| ==> es[j].id == ANONYMOUS
    ensures forall j :: 0 <= j < |WithoutPrice(es, price)| ==> WithoutPrice(es, price)[j].id == ANONYMOUS
    ensures OldestAt(es, price) == ANONYMOUS
  {
    if es != [] {
      RemovalAnonymous(es[1..], price);
    }
  }

  lemma OverwriteAnonymous(b: Book, s: Side, price: Price, volume: Volume)
    requires AllAnonymous(b)
    ensures AllAnonymous(Overwrite(b, s, price, volume))
  {
    hide Enqueue, WithoutPrice, OldestAt;
    var es := b.Of(s);
    RemovalAnonymous(es, price);
    EnqueueAnonymous(s, WithoutPrice(es, price), Entry(price, OldestAt(es, price), volume));
    var c := Overwrite(b, s, price, volume);
    assert c.Of(Opposed(s)) == b.Of(Opposed(s));
    forall t: Side, j | 0 <= j < |c.Of(t)|
      ensures c.Of(t)[j].id == ANONYMOUS
    {
      assert t == s || t == Opposed(s);
    }
  }

  // ------------------------------------------------------------------ replay

  /** One side of a snapshot or a diff event, level by level. */
  method SetLevels(book: OrderBook, s: Side, levels: seq<PriceLevel>)
    requires book.Valid() && AllAnonymous(book.Contents())
    requires Fits(book.Contents(), s, levels, book.pool.capacity)
    modifies book, book.pool
    ensures book.Valid() && AllAnonymous(book.Contents())
    ensures book.Contents() == SetAll(old(book.Contents()), s, levels)
  {
    hide Rep.Invariant, Rep.Abs, AllAnonymous, Overwrite, TailAnonymousAt, Book.Of;
    for j := 0 to |levels|
      invariant book.Valid() && AllAnonymous(book.Contents())
      invariant book.Contents() == SetAll(old(book.Contents()), s, levels[..j])
    {
      assert levels[..j + 1][..j] == levels[..j];
      AnonymousTail(book.Contents(), s, levels[j].price);
      OverwriteAnonymous(book.Contents(), s, levels[j].price, levels[j].volume);
      book.SetLevel(s, levels[j].price, levels[j].volume);
    }
    assert levels[..|levels|] == levels;
  }

  lemma AnonymousTail(b: Book, s: Side, price: Price)
    requires AllAnonymous(b)
    ensures TailAnonymousAt(b.Of(s), price)
  {
  }

  /** Seed an engine with a snapshot, or apply one diff event to it: both set every
      bid level and then every ask level. */
  method Apply(book: OrderBook, d: Depth)
    requires book.Valid() && AllAnonymous(book.Contents())
    requires Fits(book.Contents(), Bid, d.bids, book.pool.capacity)
    requires Fits(SetAll(book.Contents(), Bid, d.bids), Ask, d.asks, book.pool.capacity)
    modifies book, book.pool
    ensures book.Valid() && AllAnonymous(book.Contents())
    ensures book.Contents() == SetDepth(old(book.Contents()), d)
  {
    hide Rep.Invariant, Rep.Abs, AllAnonymous, SetAll, Fits;
    SetLevels(book, Bid, d.bids);
    SetLevels(book, Ask, d.asks);
  }

  /** No update of the feed runs out of pool slots. */
  ghost predicate FitsFeed(b: Book, feed: seq<Depth>, capacity: nat) {
    forall j :: 0 <= j < |feed| ==>
      && Fits(Replay(b, feed[..j]), Bid, feed[j].bids, capacity)
      && Fits(SetAll(Replay(b, feed[..j]), Bid, feed[j].bids), Ask, feed[j].asks, capacity)
  }

  /** Apply a whole feed in order. */
  method ReplayFeed(book: OrderBook, feed: seq<Depth>)
    requires book.Valid() && AllAnonymous(book.Contents())
    requires FitsFeed(book.Contents(), feed, book.pool.capacity)
    modifies book, book.pool
    ensures book.Valid() && AllAnonymous(book.Contents())
    ensures book.Contents() == Replay(old(book.Contents()), feed)
  {
    hide Rep.Invariant, Rep.Abs, AllAnonymous, SetAll, Fits;
    for j := 0 to |feed|
      invariant book.Valid() && AllAnonymous(book.Contents())
      invariant book.Contents() == Replay(old(book.Contents()), feed[..j])
    {
      assert feed[..j + 1][..j] == feed[..j];
      Apply(book, feed[j]);
    }
    assert feed[..|feed|] == feed;
  }
}
