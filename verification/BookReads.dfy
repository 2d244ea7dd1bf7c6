/** What the engine's indexes and caches say about the book represented. */
module BookReads {
  import opened Market
  import opened PriceTime
  import opened ObjectPools
  import opened BookRep
  import opened BookSteps
  import opened BookMoves
  import opened FlatLaws
  import opened MatchingLaws

  // ----------------------------------------------------------- the id index

  lemma {:induction false} AbsentFromFlat(
      nodes: Nodes, chains: map<Key, Chain>, s: Side, levels: seq<Level>, id: OrderId)
    requires forall i :: 0 <= i < |levels| ==> !HasId(EntriesAt(nodes, chains, Key(s, levels[i].price)), id)
    ensures !HasId(Flat(nodes, chains, s, levels), id)
  {
    hide EntriesAt;
    if levels != [] {
      var es := EntriesAt(nodes, chains, Key(s, levels[0].price));
      assert !HasId(es, id);
      AbsentFromFlat(nodes, chains, s, levels[1..], id);
    }
  }

  lemma UnindexedEntries(a: Rep, k: Key, id: OrderId)
    requires a.Owned() && a.Indexed() && id != ANONYMOUS && id !in a.index
    ensures !HasId(EntriesAt(a.nodes, a.chains, k), id)
  {
  }

  lemma UnindexedIsAbsent(a: Rep, id: OrderId)
    requires a.Invariant() && id != ANONYMOUS && id !in a.index
    ensures !Resting(a.Abs(), id)
  {
    hide EntriesAt, Rep.SortedLevels, Rep.Keyed, Rep.LinkedLevels, Rep.FreeOk, Rep.Totals, Rep.Counted;
    forall k: Key
      ensures !HasId(EntriesAt(a.nodes, a.chains, k), id)
    {
      UnindexedEntries(a, k, id);
    }
    AbsentFromFlat(a.nodes, a.chains, Bid, a.bids, id);
    AbsentFromFlat(a.nodes, a.chains, Ask, a.asks, id);
  }

  /** An indexed order stands at position `j` of level `i`. */
  ghost predicate Located(a: Rep, id: OrderId, i: nat, j: nat) {
    && id in a.index && id != ANONYMOUS
    && var l := a.index[id];
       && i < |a.Levels(l.side)| && a.Levels(l.side)[i].price == l.price
       && Key(l.side, l.price) in a.chains
       && j < |a.chains[Key(l.side, l.price)]| && a.chains[Key(l.side, l.price)][j] == l.node
       && 0 <= l.node < |a.nodes| && a.nodes[l.node].value.id == id
  }

  lemma Locate(a: Rep, id: OrderId) returns (i: nat, j: nat)
    requires a.Invariant() && id in a.index
    ensures Located(a, id, i, j)
  {
    hide Rep.SortedLevels, Rep.FreeOk, Rep.Totals, Rep.Counted, Rep.LinkedLevels, Rep.PositiveBut, Rep.Filled;
    var l := a.index[id];
    var k := Key(l.side, l.price);
    assert a.owner[l.node] == In(k);
    assert k in a.chains && l.node in a.chains[k];
    assert a.HasLevel(k);
    i :| 0 <= i < |a.Levels(k.side)| && a.Levels(k.side)[i].price == k.price;
    j :| 0 <= j < |a.chains[k]| && a.chains[k][j] == l.node;
  }

  lemma LocatedEntry(a: Rep, id: OrderId, i: nat, j: nat)
    requires a.Sound() && Located(a, id, i, j)
    ensures var es := EntriesAt(a.nodes, a.chains, a.KeyAt(a.index[id].side, i));
      |es| == |a.chains[a.KeyAt(a.index[id].side, i)]| && es[j] == Entry(a.index[id].price, id, a.nodes[a.index[id].node].value.volume)
  {
    hide Rep.SortedLevels, Rep.FreeOk, Rep.Indexed, Rep.Owned;
    ChainAt(a, a.index[id].side, i);
  }

  /** Nothing but the node the index names carries an id. */
  lemma OnlyThere(a: Rep, id: OrderId, i: nat, j: nat, k: Key)
    requires a.Sound() && Located(a, id, i, j)
    ensures k != Key(a.index[id].side, a.index[id].price) ==> !HasId(EntriesAt(a.nodes, a.chains, k), id)
    ensures var es := EntriesAt(a.nodes, a.chains, k);
      k == Key(a.index[id].side, a.index[id].price) ==> forall x :: 0 <= x < |es| && x != j ==> es[x].id != id
  {
    hide Rep.SortedLevels, Rep.FreeOk, Rep.Keyed, Rep.Indexed, Rep.LinkedLevels, Rep.Owned, Linked;
    if k in a.chains && InRange(a.nodes, a.chains[k]) {
      forall x | 0 <= x < |a.chains[k]| && !(k == Key(a.index[id].side, a.index[id].price) && x == j)
        ensures a.nodes[a.chains[k][x]].value.id != id
      {
        NotElsewhere(a, id, i, j, k, x);
      }
    }
  }

  lemma NotElsewhere(a: Rep, id: OrderId, i: nat, j: nat, k: Key, x: nat)
    requires a.Sound() && Located(a, id, i, j) && k in a.chains && InRange(a.nodes, a.chains[k]) && x < |a.chains[k]|
    requires !(k == Key(a.index[id].side, a.index[id].price) && x == j)
    ensures a.nodes[a.chains[k][x]].value.id != id
  {
    hide Rep.SortedLevels, Rep.FreeOk, Rep.Keyed, Rep.Indexed, First, Last;
    var home := Key(a.index[id].side, a.index[id].price);
    NodeOfId(a, id, a.chains[k]);
    assert a.owner[a.chains[home][j]] == In(home);
    assert a.owner[a.chains[k][x]] == In(k);
    assert Linked(a.nodes, a.chains[k]);
  }

  lemma NodeOfId(a: Rep, id: OrderId, c: Chain)
    requires a.Indexed() && id != ANONYMOUS && id in a.index
    requires InRange(a.nodes, c)
    ensures forall x :: 0 <= x < |c| && a.owner[c[x]].In? && a.nodes[c[x]].value.id == id ==> c[x] == a.index[id].node
  {
  }

  lemma IndexedIsResting(a: Rep, id: OrderId)
    requires a.Invariant() && id in a.index
    ensures id != ANONYMOUS && Resting(a.Abs(), id)
  {
    hide Rep.Sound, Rep.Totals, Rep.Counted, EntriesAt, Flat;
    var i, j := Locate(a, id);
    LocatedEntry(a, id, i, j);
    var s := a.index[id].side;
    FlatAt(a, s, i);
    var es := EntriesAt(a.nodes, a.chains, a.KeyAt(s, i));
    assert a.FlatOf(s)[|a.Above(s, i)| + j] == es[j];
    assert HasId(a.FlatOf(s), id);
  }

  /** The index holds exactly the identified orders of the book. */
  lemma IndexIsResting(a: Rep, id: OrderId)
    requires a.Invariant()
    ensures id in a.index <==> id != ANONYMOUS && Resting(a.Abs(), id)
  {
    hide *;
    if id in a.index {
      IndexedIsResting(a, id);
    } else if id != ANONYMOUS {
      UnindexedIsAbsent(a, id);
    }
  }

  lemma AbsentElsewhere(a: Rep, id: OrderId, i: nat, j: nat)
    requires a.Sound() && Located(a, id, i, j)
    ensures var s := a.index[id].side;
      && !HasId(a.Above(s, i), id) && !HasId(a.Below(s, i), id) && !HasId(a.FlatOf(Opposed(s)), id)
  {
    hide EntriesAt, Rep.Keyed, Rep.LinkedLevels, Rep.Owned, Rep.FreeOk, Rep.Indexed, Flat, HasId;
    var s := a.index[id].side;
    var ls, os := a.Levels(s), a.Levels(Opposed(s));
    forall k: Key | k != Key(s, a.index[id].price)
      ensures !HasId(EntriesAt(a.nodes, a.chains, k), id)
    {
      OnlyThere(a, id, i, j, k);
    }
    forall x | 0 <= x < |ls| && x != i
      ensures Key(s, ls[x].price) != Key(s, a.index[id].price)
    {
      PricesDiffer(a, s, i, x);
    }
    AbsentFromFlat(a.nodes, a.chains, s, ls[..i], id);
    AbsentFromFlat(a.nodes, a.chains, s, ls[i + 1..], id);
    AbsentFromFlat(a.nodes, a.chains, Opposed(s), os, id);
  }

  /** Cancelling deletes the order the index names and no other. */
  lemma CancelIsRemove(a: Rep, id: OrderId, i: nat, j: nat)
    requires a.Invariant() && a.Sound() && Located(a, id, i, j)
    ensures var s := a.index[id].side;
            var es := EntriesAt(a.nodes, a.chains, a.KeyAt(s, i));
      && j < |es|
      && Cancel(a.Abs(), id).Of(s) == a.Above(s, i) + Remove(es, j) + a.Below(s, i)
      && Cancel(a.Abs(), id).Of(Opposed(s)) == a.FlatOf(Opposed(s))
  {
    hide EntriesAt, Rep.Sound, Rep.Totals, Rep.Counted, Flat, HasId, Rep.Invariant;
    var s := a.index[id].side;
    var es := EntriesAt(a.nodes, a.chains, a.KeyAt(s, i));
    LocatedEntry(a, id, i, j);
    OnlyThere(a, id, i, j, a.KeyAt(s, i));
    AbsentElsewhere(a, id, i, j);
    FlatAt(a, s, i);
    WithoutConcat(a.Above(s, i) + es, a.Below(s, i), id);
    WithoutConcat(a.Above(s, i), es, id);
    WithoutAbsent(a.Above(s, i), id);
    WithoutOne(es, j, id);
    WithoutAbsent(a.Below(s, i), id);
    WithoutAbsent(a.FlatOf(Opposed(s)), id);
  }

  lemma CancelUnknown(a: Rep, id: OrderId)
    requires a.Invariant() && id !in a.index
    ensures Cancel(a.Abs(), id) == a.Abs()
  {
    hide Rep.Invariant, Rep.Abs;
    if id != ANONYMOUS {
      UnindexedIsAbsent(a, id);
      WithoutAbsent(a.Abs().bids, id);
      WithoutAbsent(a.Abs().asks, id);
    }
  }

  /** An identified order stands at one place in the whole book. */
  lemma OnlyPosition(a: Rep, id: OrderId, i: nat, j: nat, t: Side, x: nat)
    requires a.Sound() && Located(a, id, i, j)
    requires x < |a.FlatOf(t)| && a.FlatOf(t)[x].id == id
    ensures t == a.index[id].side && x == |a.Above(t, i)| + j
  {
    hide EntriesAt, Rep.Sound, Flat;
    var s := a.index[id].side;
    var es := EntriesAt(a.nodes, a.chains, a.KeyAt(s, i));
    AbsentElsewhere(a, id, i, j);
    OnlyThere(a, id, i, j, a.KeyAt(s, i));
    FlatAt(a, s, i);
    IdNowhereElse(a.Above(s, i), es, a.Below(s, i), id, j);
    assert t == Opposed(s) ==> HasId(a.FlatOf(Opposed(s)), id);
  }

  lemma IdNowhereElse(above: seq<Entry>, es: seq<Entry>, below: seq<Entry>, id: OrderId, j: nat)
    requires !HasId(above, id) && !HasId(below, id)
    requires forall x :: 0 <= x < |es| && x != j ==> es[x].id != id
    ensures var whole := above + es + below;
      forall x :: 0 <= x < |whole| && x != |above| + j ==> whole[x].id != id
  {
  }

  lemma OnePlace(a: Rep, s: Side, x: nat, t: Side, y: nat)
    requires a.Invariant() && x < |a.FlatOf(s)| && y < |a.FlatOf(t)|
    requires a.FlatOf(s)[x].id == a.FlatOf(t)[y].id != ANONYMOUS
    ensures s == t && x == y
  {
    hide Rep.Sound, Rep.Totals, Rep.Counted, Flat, Rep.Filled, Rep.PositiveBut, Located;
    var id := a.FlatOf(s)[x].id;
    assert HasId(a.FlatOf(s), id);
    IndexIsResting(a, id);
    var i, j := Locate(a, id);
    OnlyPosition(a, id, i, j, s, x);
    OnlyPosition(a, id, i, j, t, y);
  }

  /** The lists are acyclic and pairwise disjoint, and every pool slot is either
      free or in exactly one list. */
  lemma NodesArePartitioned(a: Rep)
    requires a.Invariant()
    ensures forall k, l, x, y | k in a.chains && l in a.chains && 0 <= x < |a.chains[k]| && 0 <= y < |a.chains[l]| ::
              a.chains[k][x] == a.chains[l][y] ==> k == l && x == y
    ensures forall n :: 0 <= n < |a.nodes| ==> (n in a.free <==> !exists k :: k in a.chains && n in a.chains[k])
  {
    hide Rep.SortedLevels, Rep.Indexed, Rep.Totals, Rep.Counted, Rep.Keyed;
    forall k, l, x, y | k in a.chains && l in a.chains && 0 <= x < |a.chains[k]| && 0 <= y < |a.chains[l]|
                        && a.chains[k][x] == a.chains[l][y]
      ensures k == l && x == y
    {
      assert a.owner[a.chains[k][x]] == In(k) && a.owner[a.chains[l][y]] == In(l);
      assert Linked(a.nodes, a.chains[k]);
    }
    forall n | 0 <= n < |a.nodes|
      ensures n in a.free <==> !exists k :: k in a.chains && n in a.chains[k]
    {
      if n in a.free {
        forall k | k in a.chains
          ensures n !in a.chains[k]
        {
          ChainsAvoidFree(a, k, n);
        }
      } else {
        assert a.owner[n].In? && n in a.chains[a.owner[n].key];
      }
    }
  }

  lemma ChainsAvoidFree(a: Rep, k: Key, n: int)
    requires a.Owned() && a.FreeOk() && k in a.chains && n in a.free
    ensures n !in a.chains[k]
  {
  }

  /** A valid representation always represents a well-formed book. */
  lemma InvariantIsWellFormed(a: Rep)
    requires a.Invariant()
    ensures WellFormed(a.Abs())
  {
    hide Rep.Invariant, Flat, Sorted, Positive;
    var b := a.Abs();
    FlatInOrder(a, Bid);
    FlatInOrder(a, Ask);
    forall x, y | 0 <= x < y < |b.bids| && b.bids[x].id != ANONYMOUS
      ensures b.bids[x].id != b.bids[y].id
    {
      if b.bids[x].id == b.bids[y].id {
        OnePlace(a, Bid, x, Bid, y);
      }
    }
    forall x, y | 0 <= x < y < |b.asks| && b.asks[x].id != ANONYMOUS
      ensures b.asks[x].id != b.asks[y].id
    {
      if b.asks[x].id == b.asks[y].id {
        OnePlace(a, Ask, x, Ask, y);
      }
    }
    forall x, y | 0 <= x < |b.bids| && 0 <= y < |b.asks| && b.bids[x].id != ANONYMOUS
      ensures b.bids[x].id != b.asks[y].id
    {
      if b.bids[x].id == b.asks[y].id {
        OnePlace(a, Bid, x, Ask, y);
      }
    }
  }

  // ------------------------------------------------------- reachable volume

  lemma {:induction false} ReachableConcat(s: Side, limit: Price, xs: seq<Entry>, ys: seq<Entry>)
    ensures Reachable(s, limit, xs + ys) == Reachable(s, limit, xs) + Reachable(s, limit, ys)
  {
    if xs == [] {
      assert xs + ys == ys;
    } else {
      assert (xs + ys)[1..] == xs[1..] + ys;
      ReachableConcat(s, limit, xs[1..], ys);
    }
  }

  lemma {:induction false} ReachableAtPrice(s: Side, limit: Price, es: seq<Entry>, price: Price)
    requires AtPrice(es, price)
    ensures Reachable(s, limit, es) == if Crosses(s, limit, price) then Total(es) else 0
  {
    if es != [] {
      ReachableAtPrice(s, limit, es[1..], price);
    }
  }

  /** Level by level, cached totals add up to the reachable volume. */
  lemma ReachStep(a: Rep, s: Side, limit: Price, j: nat)
    requires a.Totals() && j < |a.Levels(Opposed(s))|
    ensures var o := Opposed(s);
            var ls := a.Levels(o);
      Reachable(s, limit, Flat(a.nodes, a.chains, o, ls[j..]))
        == (if Crosses(s, limit, ls[j].price) then ls[j].totalVolume else 0)
           + Reachable(s, limit, Flat(a.nodes, a.chains, o, ls[j + 1..]))
  {
    hide EntriesAt, Reachable, Crosses;
    var o := Opposed(s);
    var ls := a.Levels(o);
    var es := EntriesAt(a.nodes, a.chains, a.KeyAt(o, j));
    assert ls[j..][1..] == ls[j + 1..];
    ReachableConcat(s, limit, es, Flat(a.nodes, a.chains, o, ls[j + 1..]));
    EntriesPrice(a.nodes, a.chains, a.KeyAt(o, j));
    ReachableAtPrice(s, limit, es, ls[j].price);
  }

  lemma {:induction false} NoneReachable(
      nodes: Nodes, chains: map<Key, Chain>, o: Side, levels: seq<Level>, s: Side, limit: Price)
    requires forall i :: 0 <= i < |levels| ==> !Crosses(s, limit, levels[i].price)
    ensures Reachable(s, limit, Flat(nodes, chains, o, levels)) == 0
  {
    FlatPrices(nodes, chains, o, levels, (p: Price) => !Crosses(s, limit, p));
    NothingCrosses(s, limit, Flat(nodes, chains, o, levels));
  }

  lemma {:induction false} NothingCrosses(s: Side, limit: Price, es: seq<Entry>)
    requires forall i :: 0 <= i < |es| ==> !Crosses(s, limit, es[i].price)
    ensures Reachable(s, limit, es) == 0
  {
    if es != [] {
      NothingCrosses(s, limit, es[1..]);
    }
  }

  lemma {:induction false} SomeReachable(
      a: Rep, o: Side, levels: seq<Level>, s: Side, limit: Price)
    requires a.Owned() && a.PositiveBut(NULL_INDEX)
    ensures Reachable(s, limit, Flat(a.nodes, a.chains, o, levels)) >= 0
  {
    if levels != [] {
      var k := Key(o, levels[0].price);
      var es := EntriesAt(a.nodes, a.chains, k);
      if k in a.chains {
        forall j | 0 <= j < |es|
          ensures es[j].volume > 0
        {
          assert a.owner[a.chains[k][j]] == In(k);
        }
      }
      ReachableNonNegative(s, limit, es);
      SomeReachable(a, o, levels[1..], s, limit);
      ReachableConcat(s, limit, es, Flat(a.nodes, a.chains, o, levels[1..]));
    }
  }

  /** Behind a level that does not cross, nothing does. */
  lemma BehindNothing(a: Rep, s: Side, limit: Price, j: nat)
    requires a.SortedLevels() && j < |a.Levels(Opposed(s))|
    requires !Crosses(s, limit, a.Levels(Opposed(s))[j].price)
    ensures Reachable(s, limit, Flat(a.nodes, a.chains, Opposed(s), a.Levels(Opposed(s))[j..])) == 0
  {
    var ls := a.Levels(Opposed(s));
    forall x | 0 <= x < |ls[j..]|
      ensures !Crosses(s, limit, ls[j..][x].price)
    {
      if x > 0 {
        assert Better(Opposed(s), ls[j].price, ls[j + x].price);
      }
    }
    NoneReachable(a.nodes, a.chains, Opposed(s), ls[j..], s, limit);
  }

  // ----------------------------------------------------- the book is in order

  lemma {:induction false} FlatSorted(nodes: Nodes, chains: map<Key, Chain>, s: Side, levels: seq<Level>)
    requires forall i, j :: 0 <= i < j < |levels| ==> Better(s, levels[i].price, levels[j].price)
    ensures Sorted(s, Flat(nodes, chains, s, levels))
  {
    if levels != [] {
      var price := levels[0].price;
      FlatSorted(nodes, chains, s, levels[1..]);
      EntriesPrice(nodes, chains, Key(s, price));
      FlatPrices(nodes, chains, s, levels[1..], (p: Price) => Better(s, price, p));
    }
  }

  lemma {:induction false} FlatPositive(a: Rep, s: Side, levels: seq<Level>)
    requires a.Owned() && a.PositiveBut(NULL_INDEX)
    ensures Positive(Flat(a.nodes, a.chains, s, levels))
  {
    if levels != [] {
      var k := Key(s, levels[0].price);
      FlatPositive(a, s, levels[1..]);
      if k in a.chains {
        forall j | 0 <= j < |a.chains[k]|
          ensures a.nodes[a.chains[k][j]].value.volume > 0
        {
          assert a.owner[a.chains[k][j]] == In(k);
        }
      }
    }
  }

  lemma FlatInOrder(a: Rep, s: Side)
    requires a.Invariant()
    ensures Sorted(s, a.FlatOf(s)) && Positive(a.FlatOf(s))
  {
    hide Flat, Rep.Keyed, Rep.LinkedLevels, Rep.FreeOk, Rep.Indexed, Rep.Totals, Rep.Filled, Rep.Counted;
    FlatSorted(a.nodes, a.chains, s, a.Levels(s));
    FlatPositive(a, s, a.Levels(s));
  }

  /** The fill-or-kill test decides exactly whether a sweep would leave a remainder. */
  lemma SweepCovers(a: Rep, o: Order)
    requires a.Invariant() && o.volume > 0
    ensures var es := a.Abs().Of(Opposed(o.side));
      Sweep(o.id, o.side, o.price, o.volume, es).remainder > 0 <==> Reachable(o.side, o.price, es) < o.volume
  {
    hide Rep.Invariant, Flat, Sweep, Reachable;
    FlatInOrder(a, Opposed(o.side));
    RemainderIsShortfall(o.id, o.side, o.price, o.volume, a.FlatOf(Opposed(o.side)));
  }

  lemma {:induction false} SweepInventsNoId(
      id: OrderId, s: Side, limit: Price, volume: Volume, es: seq<Entry>, other: OrderId)
    requires !HasId(es, other)
    ensures !HasId(Sweep(id, s, limit, volume, es).rest, other)
    decreases |es|
  {
    if es != [] {
      assert es[0].id != other && !HasId(es[1..], other);
      if volume > 0 && Crosses(s, limit, es[0].price) && volume >= es[0].volume {
        SweepInventsNoId(id, s, limit, volume - es[0].volume, es[1..], other);
      }
    }
  }

  /** After matching, the aggressor's id is still unused and its slot still there. */
  lemma StillFresh(b: Rep, before: Book, o: Order, swept: Swept)
    requires b.Invariant() && o.volume > 0
    requires swept == Sweep(o.id, o.side, o.price, o.volume, before.Of(Opposed(o.side)))
    requires b.Abs() == before.With(Opposed(o.side), swept.rest)
    ensures o.id == ANONYMOUS || Resting(before, o.id) || o.id !in b.index
    ensures (o.id == ANONYMOUS || o.id !in b.index) <==> (o.id == ANONYMOUS || !Resting(b.Abs(), o.id))
    ensures |b.nodes| - |b.free| + 1 == Add(b.Abs(), o.side, Entry(o.price, o.id, swept.remainder)).Count()
  {
    hide Rep.Sound, Rep.Totals, Rep.PositiveBut, Rep.Filled, Rep.Abs, Sweep, Enqueue, HasId;
    EnqueueGrows(o.side, b.Abs().Of(o.side), Entry(o.price, o.id, swept.remainder));
    if o.id != ANONYMOUS {
      IndexIsResting(b, o.id);
    }
    if o.id != ANONYMOUS && !Resting(before, o.id) {
      SweepInventsNoId(o.id, o.side, o.price, o.volume, before.Of(Opposed(o.side)), o.id);
    }
  }

  // --------------------------------------------------------- volume at price

  /** The cached total of a level is the volume resting at its price. */
  lemma CachedVolume(a: Rep, s: Side, i: nat)
    requires a.SortedLevels() && a.Totals() && i < |a.Levels(s)|
    ensures VolumeAt(a.FlatOf(s), a.Levels(s)[i].price) == a.Levels(s)[i].totalVolume
  {
    hide EntriesAt, Flat, Rep.SortedLevels;
    var price := a.Levels(s)[i].price;
    var es := EntriesAt(a.nodes, a.chains, a.KeyAt(s, i));
    AvoidsAround(a, s, i);
    FlatAt(a, s, i);
    VolumeAtConcat(a.Above(s, i) + es, a.Below(s, i), price);
    VolumeAtConcat(a.Above(s, i), es, price);
    VolumeAtAvoids(a.Above(s, i), price);
    VolumeAtPrice(es, price);
    VolumeAtAvoids(a.Below(s, i), price);
  }
}
