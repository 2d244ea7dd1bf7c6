/** The engine's moves as a whole: which fields each one writes, that the
    representation survives, and what becomes of the book represented. */
module BookMoves {
  import opened Commons
  import opened Market
  import opened PriceTime
  import opened ObjectPools
  import opened BookRep
  import opened BookSteps
  import opened FlatLaws

  /** What `PopFront` finds at the head of a level. */
  lemma FrontLinks(a: Rep, s: Side, i: nat)
    requires a.Sound() && i < |a.Levels(s)| && a.chains[a.KeyAt(s, i)] != []
    ensures var c := a.chains[a.KeyAt(s, i)];
            var h := c[0];
      && a.Levels(s)[i].head == h && 0 <= h < |a.nodes| == |a.owner|
      && a.Levels(s)[i].tail == Last(c)
      && h in LiveSet(|a.nodes|, a.free)
      && a.nodes[h].prev == NULL_INDEX && a.nodes[h].next == First(Remove(c, 0))
      && (First(Remove(c, 0)) == NULL_INDEX || 0 <= First(Remove(c, 0)) < |a.nodes|)
      && Last(Remove(c, 0)) == (if First(Remove(c, 0)) == NULL_INDEX then NULL_INDEX else Last(c))
      && UnlinkNodes(a.nodes, h) == (if First(Remove(c, 0)) == NULL_INDEX then a.nodes
                                     else a.nodes[First(Remove(c, 0)) := a.nodes[First(Remove(c, 0))].(prev := NULL_INDEX)])
      && ANONYMOUS !in a.index
  {
    hide Rep.SortedLevels;
    var c := a.chains[a.KeyAt(s, i)];
    ChainAt(a, s, i);
    LinksAt(a.nodes, c, 0);
    assert a.owner[c[0]] == In(a.KeyAt(s, i));
  }

  lemma FrontRemoved(a: Rep, b: Rep, s: Side, i: nat, lvl: Level)
    requires a.Sound() && i < |a.Levels(s)| && a.chains[a.KeyAt(s, i)] != []
    requires var c := a.chains[a.KeyAt(s, i)];
             var h := c[0];
             var n := a.nodes[h].next;
      && b.nodes == (if n == NULL_INDEX then a.nodes
                     else if 0 <= n < |a.nodes| then a.nodes[n := a.nodes[n].(prev := NULL_INDEX)] else [])
      && b.free == a.free + [h] && b.owner == a.owner[h := Unowned]
      && b.chains == a.chains[a.KeyAt(s, i) := Remove(c, 0)]
      && b.index == (if a.nodes[h].value.id == ANONYMOUS then a.index else a.index - {a.nodes[h].value.id})
      && b.Levels(s) == a.Levels(s)[i := lvl] && b.Levels(Opposed(s)) == a.Levels(Opposed(s))
      && lvl == a.Levels(s)[i].(head := n, tail := if n == NULL_INDEX then NULL_INDEX else a.Levels(s)[i].tail)
    ensures Removed(a, b, s, i, 0)
  {
    hide Rep.Sound, UnlinkNodes, LiveSet;
    FrontLinks(a, s, i);
    assert ANONYMOUS !in a.index ==> a.index - {ANONYMOUS} == a.index;
  }

  ghost predicate HasFront(a: Rep, s: Side, i: nat) {
    && i < |a.Levels(s)| && a.KeyAt(s, i) in a.chains && a.chains[a.KeyAt(s, i)] != []
    && 0 <= a.Levels(s)[i].head < |a.nodes|
  }

  /** `take` units have left the front of level `i`, and nothing else changed. */
  ghost predicate Drained(a: Rep, b: Rep, s: Side, i: nat, take: Volume) {
    && i < |a.Levels(s)| && i < |b.Levels(s)|
    && var k := a.KeyAt(s, i);
       var es := EntriesAt(a.nodes, a.chains, k);
       && es != []
       && b.Draining(k) && b.KeyAt(s, i) == k
       && SamePrices(a.Levels(s), b.Levels(s)) && b.Levels(Opposed(s)) == a.Levels(Opposed(s))
       && EntriesAt(b.nodes, b.chains, k) == DrainFront(es, take)
       && b.Above(s, i) == a.Above(s, i) && b.Below(s, i) == a.Below(s, i)
       && b.FlatOf(s) == a.Above(s, i) + DrainFront(es, take) + a.Below(s, i)
       && b.FlatOf(Opposed(s)) == a.FlatOf(Opposed(s))
  }

  lemma FrontOrder(a: Rep, s: Side, i: nat)
    requires i < |a.Levels(s)| && a.Draining(a.KeyAt(s, i)) && HasFront(a, s, i)
    ensures a.Sound() && a.chains[a.KeyAt(s, i)][0] == a.Levels(s)[i].head
    ensures 0 <= a.Levels(s)[i].head < |a.nodes| && a.nodes[a.Levels(s)[i].head].value.volume > 0
    ensures var es := EntriesAt(a.nodes, a.chains, a.KeyAt(s, i));
      && es != [] && |es| == |a.chains[a.KeyAt(s, i)]|
      && es[0] == EntryAt(a.nodes, a.Levels(s)[i].price, a.Levels(s)[i].head) && es[0].volume > 0
  {
    hide Rep.SortedLevels, Rep.Indexed, Rep.FreeOk, Rep.Totals, Rep.FilledBut, Rep.Counted;
    ChainAt(a, s, i);
    assert a.owner[a.chains[a.KeyAt(s, i)][0]] == In(a.KeyAt(s, i));
  }

  lemma IsFrontTaken(a: Rep, b: Rep, s: Side, i: nat, take: Volume)
    requires a.Sound() && HasFront(a, s, i) && a.chains[a.KeyAt(s, i)][0] == a.Levels(s)[i].head
    requires var h := a.Levels(s)[i].head;
             var lvl := a.Levels(s)[i];
      && b.nodes == a.nodes[h := a.nodes[h].(value := a.nodes[h].value.(volume := a.nodes[h].value.volume - take))]
      && b.free == a.free && b.chains == a.chains && b.owner == a.owner && b.index == a.index
      && b.Levels(s) == a.Levels(s)[i := lvl.(totalVolume := lvl.totalVolume - take)]
      && b.Levels(Opposed(s)) == a.Levels(Opposed(s))
    ensures FrontTaken(a, b, s, i, take)
  {
    hide Rep.Sound;
  }

  lemma CountedFrom(a: Rep, b: Rep, s: Side)
    requires a.Counted()
    requires b.FlatOf(Opposed(s)) == a.FlatOf(Opposed(s))
    requires (|b.nodes| - |b.free|) - (|a.nodes| - |a.free|) == |b.FlatOf(s)| - |a.FlatOf(s)|
    ensures b.Counted()
  {
  }

  lemma TakenPositive(a: Rep, b: Rep, s: Side, i: nat, take: Volume)
    requires a.Sound() && HasFront(a, s, i) && FrontTaken(a, b, s, i, take)
    requires b.PositiveBut(a.chains[a.KeyAt(s, i)][0])
    requires EntriesAt(a.nodes, a.chains, a.KeyAt(s, i)) != []
    requires take < EntriesAt(a.nodes, a.chains, a.KeyAt(s, i))[0].volume
    ensures b.PositiveBut(NULL_INDEX)
  {
    hide Rep.SortedLevels, Rep.Indexed, Rep.FreeOk, Rep.Owned;
    ChainAt(a, s, i);
  }

  lemma TakenLocally(a: Rep, b: Rep, s: Side, i: nat, take: Volume)
    requires a.Sound() && HasFront(a, s, i) && FrontTaken(a, b, s, i, take)
    requires EntriesAt(a.nodes, a.chains, a.KeyAt(s, i)) != []
    ensures LevelChanged(a, b, s, i)
    ensures b.Above(s, i) == a.Above(s, i) && b.Below(s, i) == a.Below(s, i)
    ensures |a.FlatOf(s)| == |b.FlatOf(s)|
    ensures |b.nodes| == |a.nodes| && |b.free| == |a.free| && b.chains == a.chains
  {
    hide Rep.Sound, EntriesAt, Flat, SameElsewhere;
    TakenFacts(a, b, s, i, take);
    FlatStep(a, b, s, i);
    FlatAt(a, s, i);
  }

  lemma TakeSome(a: Rep, b: Rep, s: Side, i: nat, take: Volume)
    requires i < |a.Levels(s)| && a.Draining(a.KeyAt(s, i)) && HasFront(a, s, i)
    requires a.Sound() && FrontTaken(a, b, s, i, take)
    requires EntriesAt(a.nodes, a.chains, a.KeyAt(s, i)) != []
    requires 0 < take < EntriesAt(a.nodes, a.chains, a.KeyAt(s, i))[0].volume
    ensures Drained(a, b, s, i, take)
  {
    hide Rep.Sound, Rep.Totals, Rep.PositiveBut, Rep.Counted, EntriesAt, Flat, FrontTaken, Total;
    TakeKeeps(a, b, s, i, take);
    TakeTotals(a, b, s, i, take);
    TakenPositive(a, b, s, i, take);
    TakenLocally(a, b, s, i, take);
    TakeReduces(a, b, s, i, take);
    CountedFrom(a, b, s);
  }

  lemma PoppedTotals(b: Rep, c: Rep, s: Side, i: nat)
    requires b.Totals() && b.SortedLevels() && c.SortedLevels()
    requires i < |b.Levels(s)| && i < |c.Levels(s)| && c.KeyAt(s, i) == b.KeyAt(s, i)
    requires c.TotalsBut(b.KeyAt(s, i))
    requires c.Levels(s)[i].totalVolume == b.Levels(s)[i].totalVolume
    requires var es := EntriesAt(b.nodes, b.chains, b.KeyAt(s, i));
      es != [] && es[0].volume == 0 && EntriesAt(c.nodes, c.chains, b.KeyAt(s, i)) == es[1..]
    ensures c.Totals()
  {
  }

  /** Popping the head shortens its level's stretch of the book by one order. */
  lemma PopLocally(b: Rep, c: Rep, s: Side, i: nat)
    requires b.Sound() && HasFront(b, s, i) && Removed(b, c, s, i, 0)
    ensures LevelChanged(b, c, s, i)
    ensures c.Above(s, i) == b.Above(s, i) && c.Below(s, i) == b.Below(s, i)
    ensures var es := EntriesAt(b.nodes, b.chains, b.KeyAt(s, i));
      es != [] && EntriesAt(c.nodes, c.chains, b.KeyAt(s, i)) == es[1..]
      && c.FlatOf(s) == b.Above(s, i) + es[1..] + b.Below(s, i)
      && |c.FlatOf(s)| == |b.FlatOf(s)| - 1
    ensures c.FlatOf(Opposed(s)) == b.FlatOf(Opposed(s))
    ensures |c.nodes| == |b.nodes| && |c.free| == |b.free| + 1
    ensures c.chains == b.chains[b.KeyAt(s, i) := Remove(b.chains[b.KeyAt(s, i)], 0)]
  {
    hide Rep.Sound, EntriesAt, Flat, SameElsewhere;
    RemoveSound(b, c, s, i, 0);
    SoundParts(b);
    FlatStep(b, c, s, i);
    RemoveDeletes(b, c, s, i, 0);
    FlatAt(b, s, i);
  }

  lemma IsSound(a: Rep)
    requires a.Invariant()
    ensures a.Sound()
  {
  }

  /** A price found at two positions is found at one. */
  lemma SamePlace(a: Rep, s: Side, i: nat, j: nat)
    requires a.SortedLevels() && j < |a.Levels(s)|
    requires i <= |a.Levels(s)|
    requires forall x :: 0 <= x < i ==> Better(s, a.Levels(s)[x].price, a.Levels(s)[j].price)
    requires forall x :: i <= x < |a.Levels(s)| ==> !Better(s, a.Levels(s)[x].price, a.Levels(s)[j].price)
    ensures i == j
  {
    var price := a.Levels(s)[j].price;
    forall x | 0 <= x < i
      ensures a.Levels(s)[x].price != price
    {
    }
    assert i <= j;
    var found := a.Levels(s)[i].price;
  }

  lemma SoundParts(a: Rep)
    requires a.Sound()
    ensures a.SortedLevels() && a.Keyed() && a.LinkedLevels() && a.Owned() && a.FreeOk() && a.Indexed()
  {
  }

  lemma TotalsBut(a: Rep, k: Key)
    requires a.Totals()
    ensures a.TotalsBut(k)
  {
  }

  /** Popping an exhausted head keeps everything but the emptiness of its level. */
  lemma PopKeeps(b: Rep, c: Rep, s: Side, i: nat)
    requires b.Sound() && HasFront(b, s, i) && Removed(b, c, s, i, 0)
    requires b.Totals() && b.FilledBut(b.KeyAt(s, i)) && b.PositiveBut(b.chains[b.KeyAt(s, i)][0])
    requires EntriesAt(b.nodes, b.chains, b.KeyAt(s, i)) != []
    requires EntriesAt(b.nodes, b.chains, b.KeyAt(s, i))[0].volume == 0
    requires i < |c.Levels(s)| && c.Levels(s)[i].totalVolume == b.Levels(s)[i].totalVolume
    ensures c.Sound() && c.Totals() && c.FilledBut(b.KeyAt(s, i)) && c.PositiveBut(NULL_INDEX)
  {
    hide Rep.Sound, Rep.Totals, Rep.TotalsBut, Rep.PositiveBut, Rep.FilledBut, EntriesAt, Flat, Removed;
    TotalsBut(b, b.KeyAt(s, i));
    RemoveKeeps(b, c, s, i, 0);
    PopLocally(b, c, s, i);
    SoundParts(b);
    SoundParts(c);
    PoppedTotals(b, c, s, i);
  }

  lemma TakeAll(a: Rep, b: Rep, c: Rep, s: Side, i: nat, take: Volume)
    requires i < |a.Levels(s)| && a.Draining(a.KeyAt(s, i)) && HasFront(a, s, i)
    requires a.Sound() && FrontTaken(a, b, s, i, take)
    requires EntriesAt(a.nodes, a.chains, a.KeyAt(s, i)) != []
    requires take == EntriesAt(a.nodes, a.chains, a.KeyAt(s, i))[0].volume
    requires b.Sound() && HasFront(b, s, i) && Removed(b, c, s, i, 0)
    requires i < |c.Levels(s)| && c.Levels(s)[i].totalVolume == b.Levels(s)[i].totalVolume
    ensures Drained(a, c, s, i, take)
  {
    hide Rep.Sound, Rep.Totals, Rep.TotalsBut, Rep.PositiveBut, Rep.Counted, EntriesAt, Flat, FrontTaken, Removed,
         Rep.Above, Rep.Below, Rep.FlatOf, Rep.FilledBut, Linked;
    TakeKeeps(a, b, s, i, take);
    TakeTotals(a, b, s, i, take);
    TakenLocally(a, b, s, i, take);
    TakeReduces(a, b, s, i, take);
    FilledSame(a, b, a.KeyAt(s, i));
    PopKeeps(b, c, s, i);
    PopLocally(b, c, s, i);
    CountedFrom(a, c, s);
  }

  lemma FilledSame(a: Rep, b: Rep, k: Key)
    requires a.FilledBut(k) && b.chains == a.chains
    ensures b.FilledBut(k)
  {
  }

  /** The book nothing has been placed in. */
  lemma NothingRests()
    ensures var a := Rep([], [], [], [], map[], map[], []);
      a.Invariant() && a.Abs() == EMPTY
  {
  }

  // ---------------------------------------------------- around a drained level

  lemma InvariantSorted(a: Rep)
    requires a.Invariant()
    ensures a.SortedLevels() && a.Keyed()
  {
  }

  lemma InvariantDrains(a: Rep, k: Key)
    requires a.Invariant()
    ensures a.Draining(k)
  {
  }

  /** A level's head says whether anything is left in it. */
  lemma HeadTells(a: Rep, s: Side, i: nat)
    requires i < |a.Levels(s)| && a.Draining(a.KeyAt(s, i))
    ensures a.KeyAt(s, i) in a.chains
    ensures a.Levels(s)[i].head != NULL_INDEX ==> HasFront(a, s, i)
    ensures a.Levels(s)[i].head == NULL_INDEX ==> a.chains[a.KeyAt(s, i)] == []
    ensures a.Levels(s)[i].head == NULL_INDEX ==> EntriesAt(a.nodes, a.chains, a.KeyAt(s, i)) == []
  {
    hide Rep.SortedLevels, Rep.Indexed, Rep.FreeOk, Rep.Totals, Rep.FilledBut, Rep.Counted, Rep.Owned;
    ChainAt(a, s, i);
  }

  lemma DrainedEnough(a: Rep, s: Side, i: nat)
    requires i < |a.Levels(s)| && a.Draining(a.KeyAt(s, i)) && HasFront(a, s, i)
    ensures a.Invariant()
  {
  }

  lemma EraseRestores(a: Rep, b: Rep, s: Side, i: nat)
    requires i < |a.Levels(s)| && a.Draining(a.KeyAt(s, i)) && Erased(a, b, s, i)
    ensures b.Invariant() && b.Abs() == a.Abs()
  {
    hide Rep.Sound, Rep.Totals, Rep.TotalsBut, Rep.PositiveBut, Rep.FilledBut, Rep.Filled, Flat;
    TotalsBut(a, a.KeyAt(s, i));
    EraseKeeps(a, b, s, i);
  }

  /** The best price of a side is the price of its first order. */
  lemma FlatFront(a: Rep, s: Side)
    requires a.Invariant()
    ensures a.Levels(s) == [] ==> a.FlatOf(s) == []
    ensures a.Levels(s) != [] ==> a.FlatOf(s) != [] && a.FlatOf(s)[0].price == a.Levels(s)[0].price
  {
  }

  /** One turn of the matching loop, in terms of the book. */
  lemma MatchStep(a: Rep, b: Rep, whole: Swept, done: seq<Trade>, id: OrderId, s: Side, limit: Price, volume: Volume)
    requires var o := Opposed(s);
      && a.Levels(o) != [] && a.Draining(a.KeyAt(o, 0)) && HasFront(a, o, 0)
      && volume > 0 && Crosses(s, limit, a.Levels(o)[0].price)
      && Continues(whole, done, Sweep(id, s, limit, volume, a.FlatOf(o)))
    requires var o := Opposed(s);
             var h := a.nodes[a.Levels(o)[0].head].value;
      Drained(a, b, o, 0, Min(volume, h.volume))
    ensures var o := Opposed(s);
            var h := a.nodes[a.Levels(o)[0].head].value;
            var fill := Min(volume, h.volume);
      Continues(whole, done + [Trade(id, h.id, a.Levels(o)[0].price, fill)],
                Sweep(id, s, limit, volume - fill, b.FlatOf(o)))
  {
    hide Rep.Draining, Sweep, Continues, DrainFront, EntriesAt, Min, Crosses, Flat, Rep.FlatOf, Rep.Below, Drained;
    var o := Opposed(s);
    var es := EntriesAt(a.nodes, a.chains, a.KeyAt(o, 0));
    var h := a.nodes[a.Levels(o)[0].head].value;
    FrontSplit(a, b, o, Min(volume, h.volume));
    SweepStep(whole, done, id, s, limit, volume, es, a.Below(o, 0));
  }

  lemma FrontSplit(a: Rep, b: Rep, s: Side, take: Volume)
    requires a.Levels(s) != [] && a.Draining(a.KeyAt(s, 0)) && HasFront(a, s, 0)
    requires Drained(a, b, s, 0, take)
    ensures var es := EntriesAt(a.nodes, a.chains, a.KeyAt(s, 0));
            var h := a.nodes[a.Levels(s)[0].head].value;
      && es != [] && es[0] == Entry(a.Levels(s)[0].price, h.id, h.volume) && h.volume > 0
      && a.FlatOf(s) == es + a.Below(s, 0)
      && b.FlatOf(s) == DrainFront(es, take) + a.Below(s, 0)
  {
    hide Rep.Draining, EntriesAt, Rep.FlatOf, Rep.Above, Rep.Below, DrainFront, SamePrices, HasFront;
    FrontOrder(a, s, 0);
    NothingAbove(a, s);
    FlatAt(a, s, 0);
    NothingBefore(EntriesAt(a.nodes, a.chains, a.KeyAt(s, 0)), a.Below(s, 0));
    NothingBefore(DrainFront(EntriesAt(a.nodes, a.chains, a.KeyAt(s, 0)), take), a.Below(s, 0));
  }

  lemma NothingBefore(xs: seq<Entry>, ys: seq<Entry>)
    ensures [] + xs + ys == xs + ys
  {
  }

  lemma DrainedKeeps(a: Rep, b: Rep, s: Side, i: nat, take: Volume)
    requires Drained(a, b, s, i, take)
    ensures |b.Levels(s)| == |a.Levels(s)| && b.Levels(s)[i].price == a.Levels(s)[i].price
    ensures SamePrices(a.Levels(s), b.Levels(s)) && b.Draining(a.KeyAt(s, i))
    ensures b.FlatOf(Opposed(s)) == a.FlatOf(Opposed(s))
  {
    hide Rep.Draining, Rep.FlatOf, EntriesAt, DrainFront, Rep.Above, Rep.Below;
  }

  lemma NothingAbove(a: Rep, s: Side)
    requires a.Levels(s) != []
    ensures a.Above(s, 0) == []
  {
  }

  lemma MatchDone(a: Rep, whole: Swept, done: seq<Trade>, id: OrderId, s: Side, limit: Price, volume: Volume)
    requires a.Invariant()
    requires var o := Opposed(s);
      && (volume <= 0 || a.Levels(o) == [] || !Crosses(s, limit, a.Levels(o)[0].price))
      && Continues(whole, done, Sweep(id, s, limit, volume, a.FlatOf(o)))
    ensures whole == Swept(done, volume, a.FlatOf(Opposed(s)))
  {
  }

  // ------------------------------------------------------------------ resting

  /** Level `i` of side `s` is there for an order at `price` to join. */
  ghost predicate Open(a: Rep, s: Side, i: nat, price: Price) {
    && i < |a.Levels(s)| && a.KeyAt(s, i) == Key(s, price)
    && a.Draining(Key(s, price))
  }

  lemma OpenIsSound(a: Rep, s: Side, i: nat, price: Price)
    requires Open(a, s, i, price)
    ensures a.Sound()
  {
  }

  lemma AlreadyOpen(a: Rep, s: Side, i: nat)
    requires a.Invariant() && i < |a.Levels(s)|
    ensures Open(a, s, i, a.Levels(s)[i].price)
  {
  }

  lemma EmplaceOpens(a: Rep, b: Rep, s: Side, i: nat, price: Price)
    requires a.Invariant() && Emplaced(a, b, s, i, price)
    ensures Open(b, s, i, price) && b.Abs() == a.Abs()
  {
    hide Rep.Sound, Rep.Totals, Rep.PositiveBut, Rep.FilledBut, Rep.Filled, Flat, Emplaced;
    EmplaceKeeps(a, b, s, i, price);
    EmplacedSizes(a, b, s, i, price);
  }

  lemma EmplacedSizes(a: Rep, b: Rep, s: Side, i: nat, price: Price)
    requires Emplaced(a, b, s, i, price)
    ensures b.nodes == a.nodes && b.free == a.free && b.index == a.index
  {
  }

  /** What linking a fresh node behind level `i` finds there. */
  lemma BackLinks(a: Rep, s: Side, i: nat, n: int)
    requires a.Sound() && i < |a.Levels(s)|
    requires n == |a.nodes| || n in a.free
    ensures var k := a.KeyAt(s, i);
      && k in a.chains && n !in a.chains[k] && 0 <= n <= |a.nodes| && |a.owner| == |a.nodes|
      && InRange(a.nodes, a.chains[k])
      && a.Levels(s)[i].head == First(a.chains[k]) && a.Levels(s)[i].tail == Last(a.chains[k])
      && (a.Levels(s)[i].tail == NULL_INDEX <==> a.chains[k] == [])
      && (a.Levels(s)[i].tail != NULL_INDEX ==> 0 <= a.Levels(s)[i].tail < |a.nodes| && a.Levels(s)[i].tail != n)
  {
  }

  lemma BackFree(a: Rep)
    requires a.Sound() && a.free != []
    ensures a.free[|a.free| - 1] < |a.nodes|
    ensures a.free == a.free[..|a.free| - 1] + [a.free[|a.free| - 1]]
  {
  }

  lemma BackJoined(a: Rep, b: Rep, s: Side, i: nat, n: int, order: RestingOrder)
    requires a.Sound() && i < |a.Levels(s)|
    requires n == |a.nodes| || n in a.free
    requires var k := a.KeyAt(s, i);
             var lvl := a.Levels(s)[i];
      && k in a.chains && InRange(a.nodes, a.chains[k]) && 0 <= n <= |a.nodes| && n !in a.chains[k]
      && b.nodes == Appended(a.nodes, a.chains[k], n, order)
      && (if a.free == [] then n == |a.nodes| && b.free == []
          else n == a.free[|a.free| - 1] && b.free == a.free[..|a.free| - 1])
      && b.chains == a.chains[k := a.chains[k] + [n]]
      && b.owner == (if n <= |a.owner| then Put(a.owner, n, In(k)) else [])
      && b.index == (if order.id == ANONYMOUS then a.index else a.index[order.id := Location(s, k.price, n)])
      && b.Levels(s) == a.Levels(s)[i := Level(lvl.price, lvl.totalVolume + order.volume,
                                               if lvl.tail == NULL_INDEX then n else lvl.head, n)]
      && b.Levels(Opposed(s)) == a.Levels(Opposed(s))
    ensures Joined(a, b, s, i, n, order)
  {
    hide Rep.Sound, Appended;
    BackLinks(a, s, i, n);
    if a.free != [] {
      BackFree(a);
    }
  }

  /** The new order stands behind every order of its own or a better price. */
  lemma JoinedIsEnqueued(a: Rep, s: Side, i: nat, e: Entry)
    requires a.SortedLevels() && i < |a.Levels(s)| && a.Levels(s)[i].price == e.price
    ensures var es := EntriesAt(a.nodes, a.chains, a.KeyAt(s, i));
      Enqueue(s, a.FlatOf(s), e) == a.Above(s, i) + (es + [e]) + a.Below(s, i)
  {
    hide EntriesAt, Flat;
    var ls := a.Levels(s);
    var es := EntriesAt(a.nodes, a.chains, a.KeyAt(s, i));
    FlatAt(a, s, i);
    EntriesPrice(a.nodes, a.chains, a.KeyAt(s, i));
    FlatPrices(a.nodes, a.chains, s, ls[..i], (p: Price) => !Better(s, e.price, p));
    FlatPrices(a.nodes, a.chains, s, ls[i + 1..], (p: Price) => Better(s, e.price, p));
    EnqueueBetween(s, a.Above(s, i) + es, a.Below(s, i), e);
    assert a.Above(s, i) + es + [e] + a.Below(s, i) == a.Above(s, i) + (es + [e]) + a.Below(s, i);
  }

  lemma JoinGrows(a: Rep, b: Rep, s: Side, i: nat, n: int, order: RestingOrder)
    requires a.Sound() && i < |a.Levels(s)| && Joined(a, b, s, i, n, order)
    ensures (|b.nodes| - |b.free|) - (|a.nodes| - |a.free|) == 1
  {
    hide Rep.SortedLevels, Rep.Indexed, Linked, Rep.Owned, Rep.FreeOk, Rep.LinkedLevels;
    JoinRange(a, b, s, i, n, order);
    AppendedLength(a.nodes, a.chains[a.KeyAt(s, i)], n, order);
  }

  lemma JoinRange(a: Rep, b: Rep, s: Side, i: nat, n: int, order: RestingOrder)
    requires a.Sound() && i < |a.Levels(s)| && Joined(a, b, s, i, n, order)
    ensures InRange(a.nodes, a.chains[a.KeyAt(s, i)])
  {
  }

  lemma AppendedLength(nodes: Nodes, c: Chain, n: int, order: RestingOrder)
    requires InRange(nodes, c) && 0 <= n <= |nodes| && n !in c
    ensures |Appended(nodes, c, n, order)| == if n == |nodes| then n + 1 else |nodes|
  {
  }

  lemma JoinRests(a: Rep, b: Rep, s: Side, i: nat, n: int, order: RestingOrder, price: Price)
    requires Open(a, s, i, price) && a.Sound() && Joined(a, b, s, i, n, order)
    requires order.volume > 0
    ensures b.InvariantButIndex() && b.Abs() == Add(a.Abs(), s, Entry(price, order.id, order.volume))
    ensures (order.id == ANONYMOUS || order.id !in a.index) ==> b.Invariant()
  {
    hide Rep.Sound, Rep.Shaped, Rep.Indexed, Rep.Invariant, Rep.Totals, Rep.PositiveBut, Rep.FilledBut, Rep.Filled, Flat, Joined, EntriesAt, Enqueue,
         Rep.Above, Rep.Below, Rep.Counted;
    JoinKeeps(a, b, s, i, n, order);
    JoinTotals(a, b, s, i, n, order);
    JoinAdds(a, b, s, i, n, order);
    SoundParts(a);
    JoinedIsEnqueued(a, s, i, Entry(price, order.id, order.volume));
    EnqueueGrows(s, a.FlatOf(s), Entry(price, order.id, order.volume));
    JoinGrows(a, b, s, i, n, order);
    CountedFrom(a, b, s);
    InvariantParts(b);
  }

  lemma InvariantParts(a: Rep)
    ensures a.Invariant() <==> a.InvariantButIndex() && a.Indexed()
  {
    hide Rep.SortedLevels, Rep.Keyed, Rep.LinkedLevels, Rep.Owned, Rep.FreeOk, Rep.Indexed, Rep.Totals, Rep.Filled,
         Rep.PositiveBut, Rep.Counted;
  }

  lemma {:induction false} EnqueueGrows(s: Side, es: seq<Entry>, e: Entry)
    ensures |Enqueue(s, es, e)| == |es| + 1
  {
    if es != [] {
      EnqueueGrows(s, es[1..], e);
    }
  }

  // --------------------------------------------------------------- cancelling

  /** What `Unlink` finds around node `j` of level `i`, and what it makes of the level. */
  lemma UnlinkEnds(a: Rep, s: Side, i: nat, j: nat)
    requires a.Sound() && i < |a.Levels(s)|
    requires a.KeyAt(s, i) in a.chains && j < |a.chains[a.KeyAt(s, i)]|
    ensures var c := a.chains[a.KeyAt(s, i)];
            var n := c[j];
      && 0 <= n < |a.nodes| && n in LiveSet(|a.nodes|, a.free) && n < |a.owner|
      && (a.nodes[n].prev == NULL_INDEX || 0 <= a.nodes[n].prev < |a.nodes|)
      && (a.nodes[n].next == NULL_INDEX || 0 <= a.nodes[n].next < |a.nodes|)
      && First(Remove(c, j)) == (if a.nodes[n].prev == NULL_INDEX then a.nodes[n].next else a.Levels(s)[i].head)
      && Last(Remove(c, j)) == (if a.nodes[n].next == NULL_INDEX then a.nodes[n].prev else a.Levels(s)[i].tail)
      && (First(Remove(c, j)) == NULL_INDEX <==> Remove(c, j) == [])
  {
    hide Rep.SortedLevels, Rep.Indexed, Rep.Owned, Rep.FreeOk, LiveSet, Remove, First, Last;
    var c := a.chains[a.KeyAt(s, i)];
    ChainAt(a, s, i);
    ChainIsLive(a, a.KeyAt(s, i), j);
    LinksAt(a.nodes, c, j);
    RemoveEnds(c, j);
  }

  lemma RemoveEnds(c: Chain, j: nat)
    requires j < |c| && forall x :: 0 <= x < |c| ==> c[x] >= 0
    ensures First(Remove(c, j)) == if PrevIn(c, j) == NULL_INDEX then NextIn(c, j) else First(c)
    ensures Last(Remove(c, j)) == if NextIn(c, j) == NULL_INDEX then PrevIn(c, j) else Last(c)
    ensures First(Remove(c, j)) == NULL_INDEX <==> Remove(c, j) == []
  {
  }

  lemma ChainIsLive(a: Rep, k: Key, j: nat)
    requires a.Owned() && a.FreeOk() && k in a.chains && j < |a.chains[k]|
    ensures a.chains[k][j] in LiveSet(|a.nodes|, a.free) && a.chains[k][j] < |a.owner|
  {
  }

  lemma NodeRemoved(a: Rep, b: Rep, s: Side, i: nat, j: nat, lvl: Level)
    requires a.Sound() && i < |a.Levels(s)|
    requires a.KeyAt(s, i) in a.chains && j < |a.chains[a.KeyAt(s, i)]|
    requires var c := a.chains[a.KeyAt(s, i)];
             var n := c[j];
      && 0 <= n < |a.nodes| && n < |a.owner|
      && (a.nodes[n].prev == NULL_INDEX || 0 <= a.nodes[n].prev < |a.nodes|)
      && (a.nodes[n].next == NULL_INDEX || 0 <= a.nodes[n].next < |a.nodes|)
      && b.nodes == UnlinkNodes(a.nodes, n)
      && b.free == a.free + [n] && b.owner == a.owner[n := Unowned]
      && b.chains == a.chains[a.KeyAt(s, i) := Remove(c, j)]
      && b.index == a.index - {a.nodes[n].value.id}
      && b.Levels(s) == a.Levels(s)[i := lvl] && b.Levels(Opposed(s)) == a.Levels(Opposed(s))
      && lvl.price == a.Levels(s)[i].price
      && lvl.head == First(Remove(c, j)) && lvl.tail == Last(Remove(c, j))
    ensures Removed(a, b, s, i, j)
  {
    hide Rep.Sound, UnlinkNodes;
  }

  lemma RemovedTotals(a: Rep, b: Rep, s: Side, i: nat, j: nat)
    requires a.Totals() && a.SortedLevels() && b.SortedLevels()
    requires i < |a.Levels(s)| && i < |b.Levels(s)| && b.KeyAt(s, i) == a.KeyAt(s, i)
    requires b.TotalsBut(a.KeyAt(s, i))
    requires var es := EntriesAt(a.nodes, a.chains, a.KeyAt(s, i));
      j < |es| && EntriesAt(b.nodes, b.chains, a.KeyAt(s, i)) == Remove(es, j)
      && b.Levels(s)[i].totalVolume == a.Levels(s)[i].totalVolume - es[j].volume
    ensures b.Totals()
  {
    hide EntriesAt, Total;
    var es := EntriesAt(a.nodes, a.chains, a.KeyAt(s, i));
    TotalRemove(es, j);
    TotalsFrom(b, s, i);
  }

  lemma {:induction false} TotalRemove(es: seq<Entry>, j: nat)
    requires j < |es|
    ensures Total(Remove(es, j)) == Total(es) - es[j].volume
  {
    if j > 0 {
      assert Remove(es, j)[1..] == Remove(es[1..], j - 1);
      TotalRemove(es[1..], j - 1);
    } else {
      assert Remove(es, 0) == es[1..];
    }
  }

  lemma RemovedSizes(a: Rep, b: Rep, s: Side, i: nat, j: nat)
    requires a.Sound() && i < |a.Levels(s)| && j < |a.chains[a.KeyAt(s, i)]|
    requires Removed(a, b, s, i, j)
    ensures |b.nodes| == |a.nodes| && |b.free| == |a.free| + 1 && |b.Levels(s)| == |a.Levels(s)|
    ensures b.KeyAt(s, i) == a.KeyAt(s, i)
  {
    hide Rep.Sound;
    RemoveSound(a, b, s, i, j);
  }

  lemma PositiveAnyway(a: Rep, n: int)
    requires a.PositiveBut(NULL_INDEX)
    ensures a.PositiveBut(n)
  {
  }

  /** A cancelled order's level, before it is known whether the level survives. */
  lemma CancelDrains(a: Rep, b: Rep, s: Side, i: nat, j: nat)
    requires a.Invariant() && a.Sound() && i < |a.Levels(s)|
    requires a.KeyAt(s, i) in a.chains && j < |a.chains[a.KeyAt(s, i)]|
    requires Removed(a, b, s, i, j)
    requires var es := EntriesAt(a.nodes, a.chains, a.KeyAt(s, i));
      |es| == |a.chains[a.KeyAt(s, i)]| && i < |b.Levels(s)|
      && b.Levels(s)[i].totalVolume == a.Levels(s)[i].totalVolume - es[j].volume
    ensures b.Draining(a.KeyAt(s, i)) && b.KeyAt(s, i) == a.KeyAt(s, i)
    ensures b.FlatOf(s) == a.Above(s, i) + Remove(EntriesAt(a.nodes, a.chains, a.KeyAt(s, i)), j) + a.Below(s, i)
    ensures b.FlatOf(Opposed(s)) == a.FlatOf(Opposed(s))
  {
    hide Rep.Sound, Rep.Totals, Rep.TotalsBut, Rep.PositiveBut, Rep.Filled, Rep.FilledBut, EntriesAt, Flat,
         Removed, Rep.Counted;
    var k := a.KeyAt(s, i);
    FilledAnyway(a, k);
    PositiveAnyway(a, a.chains[k][j]);
    TotalsBut(a, k);
    RemoveKeeps(a, b, s, i, j);
    RemoveDeletes(a, b, s, i, j);
    RemovedSizes(a, b, s, i, j);
    SoundParts(a);
    SoundParts(b);
    RemovedTotals(a, b, s, i, j);
    FlatAt(a, s, i);
    CountedFrom(a, b, s);
  }

  lemma FilledAnyway(a: Rep, k: Key)
    requires a.Filled()
    ensures a.FilledBut(k)
  {
  }

  lemma DrainedFilled(a: Rep, k: Key)
    requires a.Draining(k) && k in a.chains && a.chains[k] != []
    ensures a.Invariant()
  {
  }

  // ----------------------------------------------------------- setting a level

  /** What holds while level `k` is emptied with no regard to its cached total. */
  ghost predicate Emptying(a: Rep, k: Key) {
    a.Sound() && a.TotalsBut(k) && a.FilledBut(k) && a.PositiveBut(NULL_INDEX) && a.Counted()
  }

  lemma StartEmptying(a: Rep, k: Key)
    requires a.Invariant()
    ensures Emptying(a, k)
  {
  }

  lemma EmptyingHead(a: Rep, s: Side, i: nat)
    requires i < |a.Levels(s)| && Emptying(a, a.KeyAt(s, i))
    ensures a.Sound() && a.KeyAt(s, i) in a.chains
    ensures a.Levels(s)[i].head == NULL_INDEX <==> a.chains[a.KeyAt(s, i)] == []
    ensures a.chains[a.KeyAt(s, i)] == [] ==> EntriesAt(a.nodes, a.chains, a.KeyAt(s, i)) == []
  {
    hide Rep.SortedLevels, Rep.Indexed, Rep.FreeOk, Rep.TotalsBut, Rep.FilledBut, Rep.Counted, Rep.Owned;
    ChainAt(a, s, i);
  }

  lemma EmptyingStep(a: Rep, b: Rep, s: Side, i: nat)
    requires i < |a.Levels(s)| && Emptying(a, a.KeyAt(s, i)) && a.Sound()
    requires HasFront(a, s, i) && Removed(a, b, s, i, 0)
    ensures i < |b.Levels(s)| && b.KeyAt(s, i) == a.KeyAt(s, i) && Emptying(b, a.KeyAt(s, i))
    ensures b.Above(s, i) == a.Above(s, i) && b.Below(s, i) == a.Below(s, i)
    ensures b.FlatOf(Opposed(s)) == a.FlatOf(Opposed(s))
    ensures a.KeyAt(s, i) in b.chains && |b.chains[a.KeyAt(s, i)]| == |a.chains[a.KeyAt(s, i)]| - 1
    ensures SamePrices(a.Levels(s), b.Levels(s)) && b.Levels(Opposed(s)) == a.Levels(Opposed(s))
  {
    hide Rep.Sound, Rep.TotalsBut, Rep.PositiveBut, Rep.FilledBut, EntriesAt, Flat, Removed, Rep.Counted;
    PositiveAnyway(a, a.chains[a.KeyAt(s, i)][0]);
    RemoveKeeps(a, b, s, i, 0);
    PopLocally(a, b, s, i);
    CountedFrom(a, b, s);
  }

  lemma EmptiedErase(a: Rep, b: Rep, s: Side, i: nat)
    requires i < |a.Levels(s)| && Emptying(a, a.KeyAt(s, i)) && Erased(a, b, s, i)
    ensures b.Invariant()
    ensures b.FlatOf(s) == a.Above(s, i) + a.Below(s, i)
    ensures b.FlatOf(Opposed(s)) == a.FlatOf(Opposed(s))
  {
    hide Rep.Sound, Rep.Totals, Rep.TotalsBut, Rep.PositiveBut, Rep.FilledBut, Rep.Filled, Flat, EntriesAt;
    EraseKeeps(a, b, s, i);
    EmptyChain(a, a.KeyAt(s, i));
    FlatAt(a, s, i);
    assert a.Above(s, i) + [] + a.Below(s, i) == a.Above(s, i) + a.Below(s, i);
  }

  lemma CollapseShrinks(a: Rep, b: Rep, s: Side, i: nat, volume: Volume)
    requires Collapsed(a, b, s, i, volume)
    ensures |b.nodes| == |a.nodes| && |b.free| == |a.free| + |a.chains[a.KeyAt(s, i)]| - 1
  {
  }

  lemma CollapseRestores(a: Rep, b: Rep, s: Side, i: nat, volume: Volume)
    requires a.Invariant() && a.Sound() && i < |a.Levels(s)|
    requires Collapsed(a, b, s, i, volume) && TailAnonymous(a, s, i) && volume > 0
    ensures b.Invariant()
    ensures var es := EntriesAt(a.nodes, a.chains, a.KeyAt(s, i));
      es != [] && b.FlatOf(s) == a.Above(s, i) + [Entry(a.Levels(s)[i].price, es[0].id, volume)] + a.Below(s, i)
    ensures b.FlatOf(Opposed(s)) == a.FlatOf(Opposed(s))
  {
    hide Rep.Sound, Rep.Totals, Rep.TotalsBut, Rep.PositiveBut, Rep.Filled, EntriesAt, Flat, Collapsed, Rep.Counted,
         TailAnonymous;
    TotalsBut(a, a.KeyAt(s, i));
    CollapseKeeps(a, b, s, i, volume);
    CollapseSets(a, b, s, i, volume);
    CollapseShrinks(a, b, s, i, volume);
    FlatAt(a, s, i);
    CountedFrom(a, b, s);
  }

  // ----------------------------------------------------------------- reducing

  /** One turn of the reduction loop, in terms of the book. */
  lemma ReduceTurn(a: Rep, b: Rep, s: Side, i: nat, volume: Volume)
    requires i < |a.Levels(s)| && a.Draining(a.KeyAt(s, i)) && HasFront(a, s, i) && volume > 0
    requires Drained(a, b, s, i, Min(volume, a.nodes[a.Levels(s)[i].head].value.volume))
    ensures var price := a.Levels(s)[i].price;
            var take := Min(volume, a.nodes[a.Levels(s)[i].head].value.volume);
      Reduce(a.FlatOf(s), price, volume) == Reduce(b.FlatOf(s), price, volume - take)
  {
    hide Rep.Draining, EntriesAt, Rep.FlatOf, Rep.Above, Rep.Below, DrainFront, Drained, Reduce, Rep.Sound,
         AvoidsPrice, AtPrice, Rep.SortedLevels, Min, Rep.Levels, Rep.KeyAt, Rep.Keyed, Rep.LinkedLevels, Rep.Owned,
         Rep.FreeOk, Rep.Indexed;
    DrainedCuts(a, b, s, i, Min(volume, a.nodes[a.Levels(s)[i].head].value.volume));
    SoundParts(a);
    AvoidsAround(a, s, i);
    ReduceStep(a.Above(s, i), EntriesAt(a.nodes, a.chains, a.KeyAt(s, i)), a.Below(s, i), a.Levels(s)[i].price, volume);
  }

  lemma DrainedCuts(a: Rep, b: Rep, s: Side, i: nat, take: Volume)
    requires i < |a.Levels(s)| && a.Draining(a.KeyAt(s, i)) && HasFront(a, s, i)
    requires Drained(a, b, s, i, take)
    ensures var es := EntriesAt(a.nodes, a.chains, a.KeyAt(s, i));
      && a.Sound() && es != [] && es[0].price == a.Levels(s)[i].price && es[0].volume > 0
      && 0 <= a.Levels(s)[i].head < |a.nodes| && es[0].volume == a.nodes[a.Levels(s)[i].head].value.volume
      && a.FlatOf(s) == a.Above(s, i) + es + a.Below(s, i)
      && b.FlatOf(s) == a.Above(s, i) + DrainFront(es, take) + a.Below(s, i)
  {
    hide Rep.Draining, EntriesAt, Rep.FlatOf, Rep.Above, Rep.Below, DrainFront, SamePrices, HasFront, Rep.Sound;
    FrontOrder(a, s, i);
    FlatAt(a, s, i);
  }

  lemma AvoidsAround(a: Rep, s: Side, i: nat)
    requires a.SortedLevels() && i < |a.Levels(s)|
    ensures AvoidsPrice(a.Above(s, i), a.Levels(s)[i].price)
    ensures AvoidsPrice(a.Below(s, i), a.Levels(s)[i].price)
    ensures AtPrice(EntriesAt(a.nodes, a.chains, a.KeyAt(s, i)), a.Levels(s)[i].price)
  {
    var ls := a.Levels(s);
    var price := ls[i].price;
    FlatPrices(a.nodes, a.chains, s, ls[..i], (p: Price) => Better(s, p, price));
    FlatPrices(a.nodes, a.chains, s, ls[i + 1..], (p: Price) => Better(s, price, p));
    EntriesPrice(a.nodes, a.chains, a.KeyAt(s, i));
  }

  lemma AvoidsMissing(a: Rep, s: Side, price: Price)
    requires forall j :: 0 <= j < |a.Levels(s)| ==> a.Levels(s)[j].price != price
    ensures AvoidsPrice(a.FlatOf(s), price)
  {
    FlatPrices(a.nodes, a.chains, s, a.Levels(s), (p: Price) => p != price);
  }

  /** Once a level is exhausted nothing rests at its price, so nothing more is taken. */
  lemma ReduceOver(a: Rep, s: Side, i: nat, volume: Volume)
    requires i < |a.Levels(s)| && a.SortedLevels()
    requires volume <= 0 || EntriesAt(a.nodes, a.chains, a.KeyAt(s, i)) == []
    ensures Reduce(a.FlatOf(s), a.Levels(s)[i].price, volume) == a.FlatOf(s)
  {
    hide EntriesAt, Flat, Rep.SortedLevels;
    if volume > 0 {
      FlatAt(a, s, i);
      AvoidsAround(a, s, i);
      ReduceAvoids(a.FlatOf(s), a.Levels(s)[i].price, volume);
    }
  }

  /** Replacing what rests at a level's price, in terms of the reference model. */
  lemma SetIsCut(a: Rep, s: Side, i: nat, volume: Volume)
    requires a.SortedLevels() && i < |a.Levels(s)|
    ensures var price := a.Levels(s)[i].price;
            var es := EntriesAt(a.nodes, a.chains, a.KeyAt(s, i));
            var cut := Overwrite(a.Abs(), s, price, volume);
      && cut.Of(Opposed(s)) == a.FlatOf(Opposed(s))
      && (volume <= 0 ==> cut.Of(s) == a.Above(s, i) + a.Below(s, i))
      && (volume > 0 && es != [] ==>
            cut.Of(s) == a.Above(s, i) + [Entry(price, es[0].id, volume)] + a.Below(s, i))
  {
    hide EntriesAt, Flat, Rep.SortedLevels;
    var price := a.Levels(s)[i].price;
    var es := EntriesAt(a.nodes, a.chains, a.KeyAt(s, i));
    AvoidsAround(a, s, i);
    FlatAt(a, s, i);
    WithoutPriceCut(a.Above(s, i), es, a.Below(s, i), price);
    if volume > 0 && es != [] {
      OldestSkips(a.Above(s, i), es + a.Below(s, i), price);
      assert a.Above(s, i) + es + a.Below(s, i) == a.Above(s, i) + (es + a.Below(s, i));
      AroundLevel(a, s, i);
      EnqueueBetween(s, a.Above(s, i), a.Below(s, i), Entry(price, es[0].id, volume));
    }
  }

  lemma AroundLevel(a: Rep, s: Side, i: nat)
    requires a.SortedLevels() && i < |a.Levels(s)|
    ensures forall j :: 0 <= j < |a.Above(s, i)| ==> !Better(s, a.Levels(s)[i].price, a.Above(s, i)[j].price)
    ensures a.Below(s, i) != [] ==> Better(s, a.Levels(s)[i].price, a.Below(s, i)[0].price)
  {
    var ls := a.Levels(s);
    var price := ls[i].price;
    FlatPrices(a.nodes, a.chains, s, ls[..i], (p: Price) => !Better(s, price, p));
    FlatPrices(a.nodes, a.chains, s, ls[i + 1..], (p: Price) => Better(s, price, p));
  }

  lemma SetIsAdd(a: Rep, s: Side, price: Price, volume: Volume)
    requires forall j :: 0 <= j < |a.Levels(s)| ==> a.Levels(s)[j].price != price
    ensures Overwrite(a.Abs(), s, price, volume)
         == if volume <= 0 then a.Abs() else Add(a.Abs(), s, Entry(price, ANONYMOUS, volume))
  {
    hide Flat;
    AvoidsMissing(a, s, price);
    WithoutPriceAvoids(a.FlatOf(s), price);
    NobodyOldest(a.FlatOf(s), price);
  }

  lemma {:induction false} NobodyOldest(es: seq<Entry>, price: Price)
    requires AvoidsPrice(es, price)
    ensures OldestAt(es, price) == ANONYMOUS
  {
    if es != [] {
      NobodyOldest(es[1..], price);
    }
  }

  /** Nobody behind the oldest order at `price` is identified. */
  ghost predicate TailAnonymousAt(es: seq<Entry>, price: Price) {
    forall x, y :: 0 <= x < y < |es| && es[x].price == price && es[y].price == price ==> es[y].id == ANONYMOUS
  }

  lemma TailOfLevel(a: Rep, s: Side, i: nat)
    requires a.Sound() && i < |a.Levels(s)| && TailAnonymousAt(a.FlatOf(s), a.Levels(s)[i].price)
    ensures TailAnonymous(a, s, i)
  {
    hide Rep.SortedLevels, Rep.FreeOk, Rep.Indexed, Rep.Owned, Flat;
    ChainAt(a, s, i);
    FlatAt(a, s, i);
    var k := a.KeyAt(s, i);
    var c := a.chains[k];
    var es := EntriesAt(a.nodes, a.chains, k);
    var above := |a.Above(s, i)|;
    forall j | 0 < j < |c|
      ensures 0 <= c[j] < |a.nodes| && a.nodes[c[j]].value.id == ANONYMOUS
    {
      assert a.FlatOf(s)[above] == es[0] && a.FlatOf(s)[above + j] == es[j];
    }
  }

  lemma DrainingSorted(a: Rep, k: Key)
    requires a.Draining(k)
    ensures a.SortedLevels()
  {
  }

  lemma HeadInRange(a: Rep, s: Side, i: nat)
    requires a.Sound() && i < |a.Levels(s)| && a.KeyAt(s, i) in a.chains && a.chains[a.KeyAt(s, i)] != []
    ensures HasFront(a, s, i)
  {
    hide Rep.SortedLevels, Rep.Indexed, Rep.FreeOk, Rep.Owned;
    ChainAt(a, s, i);
  }

  /** Nothing to reduce at a price that has no level. */
  lemma DeleteMissing(a: Rep, s: Side, price: Price, i: nat, volume: Volume)
    requires i <= |a.Levels(s)|
    requires forall j :: 0 <= j < i ==> Better(s, a.Levels(s)[j].price, price)
    requires forall j :: i <= j < |a.Levels(s)| ==> a.Levels(s)[j].price != price
    ensures Reduce(a.FlatOf(s), price, volume) == a.FlatOf(s)
  {
    hide Rep.FlatOf, AvoidsPrice;
    AvoidsMissing(a, s, price);
    ReduceAvoids(a.FlatOf(s), price, volume);
  }

  lemma PriceMissing(a: Rep, s: Side, price: Price, i: nat)
    requires a.SortedLevels() && i <= |a.Levels(s)|
    requires forall j :: 0 <= j < i ==> Better(s, a.Levels(s)[j].price, price)
    requires forall j :: i < j < |a.Levels(s)| ==> Better(s, price, a.Levels(s)[j].price)
    requires i < |a.Levels(s)| ==> a.Levels(s)[i].price != price
    ensures forall j :: 0 <= j < |a.Levels(s)| ==> a.Levels(s)[j].price != price
  {
  }

  lemma RemovalIsRemoval(b: Book, s: Side, price: Price, volume: Volume)
    requires volume <= 0
    ensures Overwrite(b, s, price, volume) == Overwrite(b, s, price, 0)
  {
  }

  lemma RoomForOne(a: Rep, s: Side, e: Entry)
    requires a.Invariant()
    ensures Add(a.Abs(), s, e).Count() == |a.nodes| - |a.free| + 1
  {
    hide Rep.Sound, Rep.Totals, Rep.PositiveBut, Rep.Filled, Rep.Abs, Enqueue;
    EnqueueGrows(s, a.Abs().Of(s), e);
  }

  lemma HeadOfFilled(a: Rep, s: Side, i: nat)
    requires a.Invariant() && i < |a.Levels(s)|
    ensures var k := a.KeyAt(s, i);
      && k in a.chains && a.chains[k] != [] && a.chains[k][0] == a.Levels(s)[i].head
      && 0 <= a.Levels(s)[i].head < |a.nodes| && a.SortedLevels()
  {
    hide Rep.SortedLevels, Rep.Indexed, Rep.FreeOk, Rep.Owned, Rep.Totals, Rep.Counted;
    ChainAt(a, s, i);
  }

  /** The node at `m` can still be freed after those between it and the head,
      and leads to the next one. */
  lemma TailNode(a: Rep, k: Key, m: nat)
    requires a.Sound() && k in a.chains && m < |a.chains[k]|
    ensures var c := a.chains[k];
      && 0 <= c[m] < |a.nodes|
      && a.nodes[c[m]].next == (if m + 1 == |c| then NULL_INDEX else c[m + 1])
      && (m >= 1 ==> c[m] in LiveSet(|a.nodes|, a.free + c[1..m]) && c[1..m] + [c[m]] == c[1..m + 1])
  {
    hide Rep.SortedLevels, Rep.Indexed, Rep.Keyed;
    var c := a.chains[k];
    assert Linked(a.nodes, c);
    LinksAt(a.nodes, c, m);
    assert a.owner[c[m]] == In(k);
  }

  lemma TailOver(a: Rep, k: Key, m: nat)
    requires k in a.chains && m == |a.chains[k]| && m >= 1
    ensures a.chains[k][1..m] == a.chains[k][1..]
  {
  }

  function Disowned(owner: seq<Owner>, nodes: seq<int>): (r: seq<Owner>)
    ensures |r| == |owner|
    ensures forall n :: 0 <= n < |owner| ==> r[n] == if n in nodes then Unowned else owner[n]
  {
    seq(|owner|, n requires 0 <= n < |owner| => if n in nodes then Unowned else owner[n])
  }

  lemma IsCollapsed(a: Rep, b: Rep, s: Side, i: nat, volume: Volume)
    requires a.Sound() && HasFront(a, s, i)
    requires var k := a.KeyAt(s, i);
             var c := a.chains[k];
             var h := a.Levels(s)[i].head;
      && c[0] == h
      && b.nodes == a.nodes[h := Node(RestingOrder(a.nodes[h].value.id, volume), NULL_INDEX, a.nodes[h].prev)]
      && b.free == a.free + c[1..] && b.chains == a.chains[k := [h]] && b.owner == Disowned(a.owner, c[1..])
      && b.index == a.index
      && b.Levels(s) == a.Levels(s)[i := Level(a.Levels(s)[i].price, volume, h, h)]
      && b.Levels(Opposed(s)) == a.Levels(Opposed(s))
    ensures Collapsed(a, b, s, i, volume)
  {
    hide Rep.SortedLevels, Rep.Indexed, Rep.FreeOk, Rep.Owned;
    ChainAt(a, s, i);
  }
}
