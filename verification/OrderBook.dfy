/** The matching engine itself: levels in sorted vectors, orders in pool nodes
    linked per level, and an index from id to node, all updated in place. Every
    public method is proved against the reference model of `PriceTime`. */
module OrderBooks {
  import opened Commons
  import opened Market
  import opened PriceTime
  import opened ObjectPools
  import opened BookRep
  import opened BookSteps
  import opened BookMoves
  import opened BookReads
  import opened FlatLaws
  import opened MatchingLaws
  import opened LowerBound

  class OrderBook {
    const pool: ObjectPool<RestingOrder>
    var bidLevels: seq<Level>
    var askLevels: seq<Level>
    var index: map<OrderId, Location>
    /** The nodes of every level, oldest first. */
    ghost var chains: map<Key, Chain>
    /** The level every node belongs to. */
    ghost var owner: seq<Owner>

    function Levels(s: Side): seq<Level>
      reads this
    {
      if s.Bid? then bidLevels else askLevels
    }

    ghost function Snapshot(): Rep
      reads this, pool
    {
      Rep(pool.nodes, pool.freeList, bidLevels, askLevels, index, chains, owner)
    }

    /** The book represented. */
    ghost function Contents(): Book
      reads this, pool
    {
      Snapshot().Abs()
    }

    ghost predicate Valid()
      reads this, pool
    {
      pool.Valid() && Snapshot().Invariant()
    }

    /** Everything but that the index names exactly the identified orders. */
    ghost predicate ValidButIndex()
      reads this, pool
    {
      pool.Valid() && Snapshot().InvariantButIndex()
    }

    /** What holds while level `k` is being drained. */
    ghost predicate Draining(k: Key)
      reads this, pool
    {
      pool.Valid() && Snapshot().Draining(k)
    }

    constructor (capacity: nat)
      requires capacity <= 0x8000_0000
      ensures Valid() && fresh(pool) && pool.capacity == capacity
      ensures Contents() == EMPTY
    {
      hide Rep.Invariant, Rep.Abs;
      NothingRests();
      pool := new ObjectPool(capacity);
      bidLevels, askLevels, index, chains, owner := [], [], map[], map[], [];
    }

    /** Between public calls the book is in priority order with every identified
        order resting once, and there are as many live nodes as orders. */
    lemma ContentsAreWellFormed()
      requires Valid()
      ensures WellFormed(Contents())
      ensures |pool.Live()| == Contents().Count() <= pool.capacity
    {
      hide Rep.Sound, Rep.Totals, Rep.Filled, Rep.PositiveBut, Rep.Abs, WellFormed;
      InvariantIsWellFormed(Snapshot());
      pool.SizeCountsLive();
    }

    // ------------------------------------------------------- level bookkeeping

    method StoreLevels(s: Side, ls: seq<Level>)
      modifies this`bidLevels, this`askLevels
      ensures Levels(s) == ls && Levels(Opposed(s)) == old(Levels(Opposed(s)))
    {
      if s.Bid? {
        bidLevels := ls;
      } else {
        askLevels := ls;
      }
    }

    /** Sorted-position lookup: everything before `i` is better than `price`,
        nothing from `i` on is. */
    method FindLevel(s: Side, price: Price) returns (i: nat)
      requires Snapshot().SortedLevels()
      ensures i <= |Levels(s)|
      ensures forall j :: 0 <= j < i ==> Better(s, Levels(s)[j].price, price)
      ensures forall j :: i <= j < |Levels(s)| ==> !Better(s, Levels(s)[j].price, price)
      ensures i < |Levels(s)| && Levels(s)[i].price != price ==> Better(s, price, Levels(s)[i].price)
      ensures forall j :: i < j < |Levels(s)| ==> Better(s, price, Levels(s)[j].price)
    {
      var ls := Levels(s);
      assert ls == Snapshot().Levels(s);
      ghost var steps;
      i, steps := BranchlessLowerBound(ls, price, (a: Price, b: Price) => Better(s, a, b), (l: Level) => l.price);
      assert forall j :: i < j < |ls| ==> Better(s, ls[i].price, ls[j].price);
    }

    /** The oldest order of level `i` leaves its list, the index and the live nodes;
        the cached total is the caller's to lower. */
    method PopFront(s: Side, i: nat)
      requires pool.Valid() && Snapshot().Sound() && i < |Levels(s)|
      requires Snapshot().KeyAt(s, i) in chains && chains[Snapshot().KeyAt(s, i)] != []
      modifies this, pool
      ensures pool.Valid() && Removed(old(Snapshot()), Snapshot(), s, i, 0)
      ensures i < |Levels(s)| && Levels(s)[i].totalVolume == old(Levels(s)[i].totalVolume)
    {
      hide Rep.Sound, UnlinkNodes, FreeListOk, LiveSet, Removed, First, Last, Remove;
      ghost var a := Snapshot();
      ghost var k := a.KeyAt(s, i);
      ghost var c := a.chains[k];
      FrontLinks(a, s, i);

      var node := Levels(s)[i].head;
      Unindex(pool.nodes[node].value.id);
      var lvl := UnhookFront(s, i);
      pool.Deallocate(node);

      chains := chains[k := Remove(c, 0)];
      owner := owner[node := Unowned];
      FrontRemoved(a, Snapshot(), s, i, lvl);
    }

    /** An identified order leaves the index. */
    method Unindex(id: OrderId)
      modifies this`index
      ensures index == if id == ANONYMOUS then old(index) else old(index) - {id}
    {
      if id != ANONYMOUS {
        index := index - {id};
      }
    }

    /** The head's successor becomes the head, or the level is left without nodes. */
    method UnhookFront(s: Side, i: nat) returns (lvl: Level)
      requires pool.Valid() && i < |Levels(s)| && 0 <= Levels(s)[i].head < |pool.nodes|
      requires var n := pool.nodes[Levels(s)[i].head].next; n == NULL_INDEX || 0 <= n < |pool.nodes|
      modifies this`bidLevels, this`askLevels, pool`nodes
      ensures pool.Valid() && pool.Live() == old(pool.Live())
      ensures Levels(s) == old(Levels(s))[i := lvl] && Levels(Opposed(s)) == old(Levels(Opposed(s)))
      ensures var n := old(pool.nodes[Levels(s)[i].head].next);
        && lvl == old(Levels(s)[i]).(head := n, tail := if n == NULL_INDEX then NULL_INDEX else old(Levels(s)[i]).tail)
        && pool.nodes == if n == NULL_INDEX then old(pool.nodes)
                         else old(pool.nodes)[n := old(pool.nodes[n]).(prev := NULL_INDEX)]
    {
      hide FreeListOk, LiveSet;
      lvl := Levels(s)[i].(head := pool.nodes[Levels(s)[i].head].next);
      if lvl.head != NULL_INDEX {
        pool.Set(lvl.head, pool.nodes[lvl.head].(prev := NULL_INDEX));
      } else {
        lvl := lvl.(tail := NULL_INDEX);
      }
      StoreLevels(s, Levels(s)[i := lvl]);
    }

    /** `take` units leave the oldest order of level `i`, which goes when empty. */
    method TakeFront(s: Side, i: nat, take: Volume)
      requires i < |Levels(s)| && Draining(Key(s, Levels(s)[i].price))
      requires HasFront(Snapshot(), s, i) && 0 < take <= pool.nodes[Levels(s)[i].head].value.volume
      modifies this, pool
      ensures Drained(old(Snapshot()), Snapshot(), s, i, take) && pool.Valid()
    {
      hide Rep.Draining, FrontTaken, Drained, Removed, FreeListOk, LiveSet, Rep.Sound, EntriesAt, Rep.FlatOf, Rep.Above,
           Rep.Below;
      ghost var a := Snapshot();
      FrontOrder(a, s, i);
      var lvl := Levels(s)[i];
      var node := pool.nodes[lvl.head];
      pool.Set(lvl.head, node.(value := node.value.(volume := node.value.volume - take)));
      StoreLevels(s, Levels(s)[i := lvl.(totalVolume := lvl.totalVolume - take)]);
      ghost var b := Snapshot();
      IsFrontTaken(a, b, s, i, take);
      TakeKeeps(a, b, s, i, take);
      if node.value.volume == take {
        PopFront(s, i);
        TakeAll(a, b, Snapshot(), s, i, take);
      } else {
        TakeSome(a, b, s, i, take);
      }
    }

    /** Drop an exhausted level. */
    method EraseLevel(s: Side, i: nat)
      requires i < |Levels(s)| && Draining(Key(s, Levels(s)[i].price))
      requires Levels(s)[i].head == NULL_INDEX
      modifies this
      ensures Valid() && Contents() == old(Contents())
      ensures Levels(s) == Remove(old(Levels(s)), i)
    {
      hide Rep.Draining, Rep.Invariant, FreeListOk, Rep.Abs;
      ghost var a := Snapshot();
      HeadTells(a, s, i);
      chains := chains - {a.KeyAt(s, i)};
      StoreLevels(s, Remove(Levels(s), i));
      assert Erased(a, Snapshot(), s, i);
      EraseRestores(a, Snapshot(), s, i);
    }

    // ----------------------------------------------------------------- matching

    /** The matching loop's turn on one resting order. */
    method HitFront(id: OrderId, s: Side, price: Price, incoming: Volume, ghost whole: Swept, done: seq<Trade>)
      returns (volume: Volume, trades: seq<Trade>)
      requires Levels(Opposed(s)) != [] && Draining(Key(Opposed(s), Levels(Opposed(s))[0].price))
      requires incoming > 0 && Levels(Opposed(s))[0].head != NULL_INDEX
      requires Crosses(s, price, Levels(Opposed(s))[0].price)
      requires Continues(whole, done, Sweep(id, s, price, incoming, Snapshot().FlatOf(Opposed(s))))
      modifies this, pool
      ensures SamePrices(old(Levels(Opposed(s))), Levels(Opposed(s)))
      ensures Levels(Opposed(s)) != [] && Draining(Key(Opposed(s), Levels(Opposed(s))[0].price))
      ensures Continues(whole, trades, Sweep(id, s, price, volume, Snapshot().FlatOf(Opposed(s))))
      ensures Snapshot().FlatOf(s) == old(Snapshot().FlatOf(s))
      ensures 0 <= volume < incoming
    {
      hide Rep.Draining, FreeListOk, Rep.FlatOf, Sweep, Crosses, EntriesAt, EntryAt, Continues, Drained, SamePrices,
           HasFront, Rep.Sound;
      var o := Opposed(s);
      ghost var a := Snapshot();
      HeadTells(a, o, 0);
      FrontOrder(a, o, 0);
      var lvl := Levels(o)[0];
      var r := pool.nodes[lvl.head].value;
      var fill := Min(incoming, r.volume);
      TakeFront(o, 0, fill);
      DrainedKeeps(a, Snapshot(), o, 0, fill);
      trades := done + [Trade(id, r.id, lvl.price, fill)];
      volume := incoming - fill;
      MatchStep(a, Snapshot(), whole, done, id, s, price, incoming);
    }

    /** Trades, remainder and the opposite side afterwards are those of the naive
        matcher; the order's own side is not touched. */
    method Match(id: OrderId, s: Side, price: Price, incoming: Volume) returns (volume: Volume, trades: seq<Trade>)
      requires Valid() && incoming >= 0
      modifies this, pool
      ensures Valid()
      ensures Sweep(id, s, price, incoming, old(Contents()).Of(Opposed(s)))
           == Swept(trades, volume, Contents().Of(Opposed(s)))
      ensures Contents().Of(s) == old(Contents()).Of(s)
    {
      hide Rep.Draining, Rep.Invariant, FreeListOk, Rep.FlatOf, Sweep, Crosses, EntriesAt, Continues;
      var o := Opposed(s);
      ghost var whole := Sweep(id, s, price, incoming, Snapshot().FlatOf(o));
      volume, trades := incoming, [];
      Unstarted(whole);
      while volume > 0 && Levels(o) != [] && Crosses(s, price, Levels(o)[0].price)
        invariant Valid() && volume >= 0
        invariant Continues(whole, trades, Sweep(id, s, price, volume, Snapshot().FlatOf(o)))
        invariant Snapshot().FlatOf(s) == old(Snapshot().FlatOf(s))
        decreases |Levels(o)|, volume
      {
        ghost var depth := |Levels(o)|;
        InvariantDrains(Snapshot(), Key(o, Levels(o)[0].price));
        while volume > 0 && Levels(o)[0].head != NULL_INDEX
          invariant |Levels(o)| == depth && volume >= 0
          invariant Draining(Key(o, Levels(o)[0].price)) && Crosses(s, price, Levels(o)[0].price)
          invariant Continues(whole, trades, Sweep(id, s, price, volume, Snapshot().FlatOf(o)))
          invariant Snapshot().FlatOf(s) == old(Snapshot().FlatOf(s))
          decreases volume
        {
          volume, trades := HitFront(id, s, price, volume, whole, trades);
        }
        HeadTells(Snapshot(), o, 0);
        if Levels(o)[0].head == NULL_INDEX {
          EraseLevel(o, 0);
        } else {
          DrainedEnough(Snapshot(), o, 0);
        }
      }
      MatchDone(Snapshot(), whole, trades, id, s, price, volume);
    }

    // ------------------------------------------------------------------ resting

    /** Make an empty level at its sorted position. */
    method OpenLevel(s: Side, i: nat, price: Price)
      requires Valid() && i <= |Levels(s)|
      requires forall j :: 0 <= j < i ==> Better(s, Levels(s)[j].price, price)
      requires forall j :: i <= j < |Levels(s)| ==> Better(s, price, Levels(s)[j].price)
      modifies this
      ensures Open(Snapshot(), s, i, price) && pool.Valid()
      ensures Contents() == old(Contents()) && index == old(index)
    {
      hide Open, Rep.Invariant, FreeListOk, Rep.Abs;
      ghost var a := Snapshot();
      chains := chains[Key(s, price) := []];
      StoreLevels(s, Levels(s)[..i] + [Level(price, 0, NULL_INDEX, NULL_INDEX)] + Levels(s)[i..]);
      assert Emplaced(a, Snapshot(), s, i, price);
      EmplaceOpens(a, Snapshot(), s, i, price);
    }

    /** Put a new order at the back of an open level. */
    method JoinBack(id: OrderId, s: Side, i: nat, price: Price, volume: Volume)
      requires pool.Valid() && Open(Snapshot(), s, i, price)
      requires volume > 0 && pool.Size() < pool.capacity
      modifies this, pool
      ensures ValidButIndex()
      ensures (id == ANONYMOUS || id !in old(index)) ==> Valid()
      ensures Contents() == Add(old(Contents()), s, Entry(price, id, volume))
    {
      hide Rep.Draining, Rep.Sound, FreeListOk, LiveSet, Joined, Add, Rep.Abs, Rep.Invariant, Rep.InvariantButIndex;
      ghost var a := Snapshot();
      ghost var k := a.KeyAt(s, i);
      ghost var order := RestingOrder(id, volume);
      OpenIsSound(a, s, i, price);
      var node := pool.Allocate(RestingOrder(id, volume));
      BackLinks(a, s, i, node);
      LinkBack(s, i, node, volume);
      if id != ANONYMOUS {
        index := index[id := Location(s, price, node)];
      }

      chains := chains[k := chains[k] + [node]];
      owner := Put(owner, node, In(k));
      BackJoined(a, Snapshot(), s, i, node, order);
      JoinRests(a, Snapshot(), s, i, node, order, price);
    }

    /** Link a fresh node behind level `i`'s tail and count its volume in. */
    method LinkBack(s: Side, i: nat, node: int, volume: Volume)
      requires pool.Valid() && i < |Levels(s)| && 0 <= node < |pool.nodes|
      requires Levels(s)[i].tail != NULL_INDEX ==> 0 <= Levels(s)[i].tail < |pool.nodes|
      modifies this`bidLevels, this`askLevels, pool`nodes
      ensures pool.Valid() && pool.Live() == old(pool.Live())
      ensures Levels(Opposed(s)) == old(Levels(Opposed(s)))
      ensures var lvl := old(Levels(s)[i]);
        && Levels(s) == old(Levels(s))[i := Level(lvl.price, lvl.totalVolume + volume,
                                                  if lvl.tail == NULL_INDEX then node else lvl.head, node)]
        && |pool.nodes| == |old(pool.nodes)|
        && pool.nodes == if lvl.tail == NULL_INDEX then old(pool.nodes) else LinkedBehind(old(pool.nodes), lvl.tail, node)
    {
      hide FreeListOk, LiveSet;
      var lvl := Levels(s)[i];
      if lvl.tail == NULL_INDEX {
        lvl := lvl.(head := node, tail := node);
      } else {
        pool.Set(lvl.tail, pool.nodes[lvl.tail].(next := node));
        pool.Set(node, pool.nodes[node].(prev := lvl.tail));
        lvl := lvl.(tail := node);
      }
      StoreLevels(s, Levels(s)[i := lvl.(totalVolume := lvl.totalVolume + volume)]);
    }

    /** The order stands last at its price; a price without a level gets one. */
    method Rest(id: OrderId, s: Side, price: Price, volume: Volume)
      requires Valid() && volume > 0 && pool.Size() < pool.capacity
      modifies this, pool
      ensures ValidButIndex()
      ensures (id == ANONYMOUS || id !in old(index)) ==> Valid()
      ensures Contents() == Add(old(Contents()), s, Entry(price, id, volume))
    {
      hide Rep.Invariant, Rep.InvariantButIndex, Rep.SortedLevels, FreeListOk, LiveSet, Open, Add, Rep.Abs, Better;
      InvariantSorted(Snapshot());
      var i := FindLevel(s, price);
      if i == |Levels(s)| || Levels(s)[i].price != price {
        OpenLevel(s, i, price);
      } else {
        AlreadyOpen(Snapshot(), s, i);
      }
      JoinBack(id, s, i, price, volume);
    }

    // ---------------------------------------------------------- public methods

    /** Can `volume` be filled in full against the opposite side right now? */
    method CanFullyFill(s: Side, price: Price, volume: Volume) returns (fill: bool)
      requires Valid() && volume > 0
      ensures fill <==> Reachable(s, price, Contents().Of(Opposed(s))) >= volume
    {
      hide Rep.Sound, Rep.Counted, Rep.Filled, Flat, Crosses, Reachable, Rep.SortedLevels, Rep.Owned, Rep.PositiveBut,
           Rep.Totals;
      ghost var a := Snapshot();
      SoundParts(a);
      var o := Opposed(s);
      var levels := Levels(o);
      var available := 0;
      assert levels[0..] == levels;
      for j := 0 to |levels|
        invariant available < volume
        invariant available + Reachable(s, price, Flat(a.nodes, a.chains, o, levels[j..]))
               == Reachable(s, price, a.FlatOf(o))
      {
        var lvl := levels[j];
        if !Crosses(s, price, lvl.price) {
          BehindNothing(a, s, price, j);
          return false;
        }
        ReachStep(a, s, price, j);
        SomeReachable(a, o, levels[j + 1..], s, price);
        available := available + lvl.totalVolume;
        if available >= volume {
          return true;
        }
      }
      NoneReachable(a.nodes, a.chains, o, levels[|levels|..], s, price);
      return false;
    }

    /** The matching entry point: cross, then rest the remainder by order type. The book
        is right whatever the id; the index is exactly when the id is not rested while it
        is resting, which an id not resting before the call guarantees. */
    method PlaceOrder(order: Order) returns (trades: seq<Trade>)
      requires Valid()
      requires Place(Contents(), order).book.Count() <= pool.capacity
      modifies this, pool
      ensures ValidButIndex()
      ensures Valid() <==> !RestsTwice(old(Contents()), order)
      ensures (order.id == ANONYMOUS || !Resting(old(Contents()), order.id)) ==> Valid()
      ensures Placed(Contents(), trades) == Place(old(Contents()), order)
    {
      hide Rep.Invariant, Rep.InvariantButIndex, Rep.Abs, Sweep, Reachable, Resting, FreeListOk, WellFormed;
      InvariantParts(Snapshot());
      if order.volume <= 0 {
        return [];
      }
      ghost var es := Contents().Of(Opposed(order.side));
      SweepCovers(Snapshot(), order);
      if order.kind.FillOrKill? {
        var fill := CanFullyFill(order.side, order.price, order.volume);
        if !fill {
          return [];
        }
      }
      var remaining;
      remaining, trades := Match(order.id, order.side, order.price, order.volume);
      if remaining > 0 && order.kind.GoodTillCanceled? {
        StillFresh(Snapshot(), old(Contents()), order, Swept(trades, remaining, Contents().Of(Opposed(order.side))));
        RestRemainder(order, remaining);
      }
      InvariantParts(Snapshot());
    }

    /** Rest what is left of a matched order, under an id that may be resting. */
    method RestRemainder(order: Order, remaining: Volume)
      requires Valid() && remaining > 0 && pool.Size() < pool.capacity
      modifies this, pool
      ensures ValidButIndex()
      ensures Valid() <==> order.id == ANONYMOUS || !Resting(old(Contents()), order.id)
      ensures Contents() == Add(old(Contents()), order.side, Entry(order.price, order.id, remaining))
    {
      hide Rep.Invariant, Rep.InvariantButIndex, Rep.Abs, Resting, FreeListOk, WellFormed, Enqueue;
      ghost var b := Contents();
      IndexIsResting(Snapshot(), order.id);
      Rest(order.id, order.side, order.price, remaining);
      if order.id != ANONYMOUS && Resting(b, order.id) {
        AddedTwice(b, order.side, Entry(order.price, order.id, remaining));
        if Valid() {
          InvariantIsWellFormed(Snapshot());
        }
      }
    }

    /** Positive volume joins the queue at its price under no id, trading with nothing. */
    method AddOrder(s: Side, price: Price, volume: Volume)
      requires Valid()
      requires volume > 0 ==> Contents().Count() < pool.capacity
      modifies this, pool
      ensures Valid()
      ensures Contents() == if volume <= 0 then old(Contents())
                            else Add(old(Contents()), s, Entry(price, ANONYMOUS, volume))
    {
      hide Rep.Sound, Rep.Totals, Rep.PositiveBut, Rep.Filled, Add, Rep.Abs;
      if volume > 0 {
        Rest(ANONYMOUS, s, price, volume);
      }
    }

    /** Neighbours of `node`, or the ends of level `i` where it has none, come to
        point past it; nothing else is written, and it stays allocated. */
    method Unlink(s: Side, i: nat, node: int)
      requires pool.Valid() && i < |Levels(s)| && 0 <= node < |pool.nodes|
      requires pool.nodes[node].prev == NULL_INDEX || 0 <= pool.nodes[node].prev < |pool.nodes|
      requires pool.nodes[node].next == NULL_INDEX || 0 <= pool.nodes[node].next < |pool.nodes|
      modifies pool`nodes, this`bidLevels, this`askLevels
      ensures pool.Valid() && pool.nodes == UnlinkNodes(old(pool.nodes), node)
      ensures var n := old(pool.nodes)[node];
              var lvl := old(Levels(s))[i];
        Levels(s) == old(Levels(s))[i := Level(lvl.price, lvl.totalVolume,
                                               if n.prev == NULL_INDEX then n.next else lvl.head,
                                               if n.next == NULL_INDEX then n.prev else lvl.tail)]
      ensures Levels(Opposed(s)) == old(Levels(Opposed(s)))
    {
      var lvl := Levels(s)[i];
      var prev, next := pool.nodes[node].prev, pool.nodes[node].next;
      if prev != NULL_INDEX {
        pool.Set(prev, pool.nodes[prev].(next := next));
      } else {
        lvl := lvl.(head := next);
      }
      if next != NULL_INDEX {
        pool.Set(next, pool.nodes[next].(prev := prev));
      } else {
        lvl := lvl.(tail := prev);
      }
      StoreLevels(s, Levels(s)[i := lvl]);
    }

    /** Take node `j` of level `i` out of its list, the level's total, the index
        and the live nodes. */
    method RemoveNode(s: Side, i: nat, node: int, ghost j: nat)
      requires pool.Valid() && Snapshot().Sound() && i < |Levels(s)|
      requires var k := Snapshot().KeyAt(s, i);
        k in chains && j < |chains[k]| && chains[k][j] == node
      modifies this, pool
      ensures pool.Valid() && Removed(old(Snapshot()), Snapshot(), s, i, j)
      ensures i < |Levels(s)| && 0 <= node < |old(pool.nodes)|
      ensures Levels(s)[i].totalVolume == old(Levels(s)[i].totalVolume) - old(pool.nodes)[node].value.volume
      ensures old(Snapshot()).KeyAt(s, i) in chains
      ensures Levels(s)[i].head == NULL_INDEX <==> chains[old(Snapshot()).KeyAt(s, i)] == []
    {
      hide Rep.Sound, FreeListOk, LiveSet, Removed, UnlinkNodes, Remove, First, Last;
      ghost var a := Snapshot();
      ghost var k := a.KeyAt(s, i);
      UnlinkEnds(a, s, i, j);
      var order := pool.nodes[node].value;
      Unlink(s, i, node);
      var lvl := Levels(s)[i];
      lvl := lvl.(totalVolume := lvl.totalVolume - order.volume);
      StoreLevels(s, Levels(s)[i := lvl]);
      pool.Deallocate(node);
      index := index - {order.id};

      chains := chains[k := Remove(chains[k], j)];
      owner := owner[node := Unowned];
      NodeRemoved(a, Snapshot(), s, i, j, lvl);
    }

    /** Cancel a resting order by id; unknown and filled ids change nothing. */
    method CancelOrder(id: OrderId)
      requires Valid()
      modifies this, pool
      ensures Valid()
      ensures Contents() == Cancel(old(Contents()), id)
    {
      hide Rep.Invariant, Rep.Draining, Rep.Sound, FreeListOk, Removed, EntriesAt, Cancel, Rep.FlatOf,
           Rep.SortedLevels, Rep.Above, Rep.Below, Better, Remove;
      ghost var a := Snapshot();
      if id !in index {
        CancelUnknown(a, id);
        return;
      }
      ghost var i', j := Locate(a, id);
      InvariantSorted(a);
      var Location(s, price, node) := index[id];
      var i := FindLevel(s, price);
      IsSound(a);
      SamePlace(a, s, i, i');
      LocatedEntry(a, id, i, j);
      RemoveNode(s, i, node, j);
      CancelDrains(a, Snapshot(), s, i, j);
      CancelIsRemove(a, id, i, j);
      if Levels(s)[i].head == NULL_INDEX {
        EraseLevel(s, i);
      } else {
        DrainedFilled(Snapshot(), a.KeyAt(s, i));
      }
    }

    /** Reduce the volume resting at a price, oldest orders first. */
    method DeleteOrder(s: Side, price: Price, amount: Volume)
      requires Valid()
      modifies this, pool
      ensures Valid()
      ensures Contents() == Delete(old(Contents()), s, price, amount)
    {
      hide Rep.Invariant, Rep.Draining, FreeListOk, EntriesAt, EntryAt, Rep.FlatOf, Rep.SortedLevels, Better, Reduce,
           Drained, HasFront, Rep.Sound, SamePrices, DrainFront, Rep.Above, Rep.Below;
      InvariantSorted(Snapshot());
      var i := FindLevel(s, price);
      if i == |Levels(s)| || Levels(s)[i].price != price {
        DeleteMissing(Snapshot(), s, price, i, amount);
        return;
      }
      var volume := amount;
      InvariantDrains(Snapshot(), Key(s, price));
      while volume > 0 && Levels(s)[i].head != NULL_INDEX
        invariant i < |Levels(s)| && Levels(s)[i].price == price && Draining(Key(s, price))
        invariant Reduce(old(Snapshot().FlatOf(s)), price, amount) == Reduce(Snapshot().FlatOf(s), price, volume)
        invariant Snapshot().FlatOf(Opposed(s)) == old(Snapshot().FlatOf(Opposed(s)))
        decreases volume
      {
        ghost var a := Snapshot();
        HeadTells(a, s, i);
        FrontOrder(a, s, i);
        var take := Min(volume, pool.nodes[Levels(s)[i].head].value.volume);
        TakeFront(s, i, take);
        DrainedKeeps(a, Snapshot(), s, i, take);
        ReduceTurn(a, Snapshot(), s, i, volume);
        volume := volume - take;
      }
      HeadTells(Snapshot(), s, i);
      DrainingSorted(Snapshot(), Key(s, price));
      ReduceOver(Snapshot(), s, i, volume);
      if Levels(s)[i].head == NULL_INDEX {
        EraseLevel(s, i);
      } else {
        DrainedEnough(Snapshot(), s, i);
      }
    }

    /** Empty level `i` node by node and drop it. */
    method DropLevel(s: Side, i: nat)
      requires Valid() && i < |Levels(s)|
      modifies this, pool
      ensures Valid()
      ensures Contents() == Overwrite(old(Contents()), s, old(Levels(s)[i].price), 0)
    {
      hide Rep.Invariant, Emptying, FreeListOk, EntriesAt, Rep.FlatOf, Rep.SortedLevels, Better, Removed,
           Rep.Sound, SamePrices, Rep.Above, Rep.Below, Overwrite;
      ghost var a := Snapshot();
      ghost var k := a.KeyAt(s, i);
      InvariantSorted(a);
      StartEmptying(a, k);
      EmptyingHead(a, s, i);
      SetIsCut(a, s, i, 0);
      while Levels(s)[i].head != NULL_INDEX
        invariant i < |Levels(s)| && Snapshot().KeyAt(s, i) == k && Emptying(Snapshot(), k) && pool.Valid()
        invariant Snapshot().Above(s, i) == a.Above(s, i) && Snapshot().Below(s, i) == a.Below(s, i)
        invariant Snapshot().FlatOf(Opposed(s)) == a.FlatOf(Opposed(s))
        invariant k in chains
        decreases |chains[k]|
      {
        ghost var b := Snapshot();
        EmptyingHead(b, s, i);
        HeadInRange(b, s, i);
        PopFront(s, i);
        EmptyingStep(b, Snapshot(), s, i);
      }
      EmptyingHead(Snapshot(), s, i);
      ghost var b := Snapshot();
      chains := chains - {k};
      StoreLevels(s, Remove(Levels(s), i));
      assert Erased(b, Snapshot(), s, i);
      EmptiedErase(b, Snapshot(), s, i);
    }

    /** Free the nodes behind the first one of a list, in order. */
    method FreeTail(second: int, ghost k: Key)
      requires pool.Valid() && Snapshot().Sound() && k in chains && chains[k] != []
      requires second == if |chains[k]| == 1 then NULL_INDEX else chains[k][1]
      modifies pool`freeList
      ensures pool.Valid() && pool.freeList == old(pool.freeList) + chains[k][1..]
    {
      hide FreeListOk, LiveSet, Rep.Sound;
      ghost var a := Snapshot();
      ghost var c := chains[k];
      var n := second;
      ghost var m := 1;
      while n != NULL_INDEX
        invariant 1 <= m <= |c| && n == (if m == |c| then NULL_INDEX else c[m])
        invariant pool.Valid() && pool.freeList == a.free + c[1..m]
        decreases |c| - m
      {
        TailNode(a, k, m);
        var next := pool.nodes[n].next;
        pool.Deallocate(n);
        n := next;
        m := m + 1;
      }
      if m < |c| {
        TailNode(a, k, m);
      }
      TailOver(a, k, m);
    }

    /** Shrink level `i` to its oldest order and overwrite that order's volume. */
    method CollapseLevel(s: Side, i: nat, volume: Volume)
      requires Valid() && i < |Levels(s)| && volume > 0
      requires TailAnonymousAt(Contents().Of(s), Levels(s)[i].price)
      modifies this, pool
      ensures Valid()
      ensures Contents() == Overwrite(old(Contents()), s, old(Levels(s)[i].price), volume)
    {
      hide Rep.Invariant, FreeListOk, LiveSet, EntriesAt, Rep.FlatOf, Rep.SortedLevels, Collapsed, Overwrite,
           Rep.Sound, Rep.Above, Rep.Below, TailAnonymousAt, TailAnonymous;
      ghost var a := Snapshot();
      ghost var k := a.KeyAt(s, i);
      InvariantSorted(a);
      IsSound(a);
      HeadOfFilled(a, s, i);
      TailOfLevel(a, s, i);
      SetIsCut(a, s, i, volume);

      var lvl := Levels(s)[i];
      TailNode(a, k, 0);
      FreeTail(pool.nodes[lvl.head].next, k);
      var head := pool.nodes[lvl.head];
      pool.Set(lvl.head, Node(RestingOrder(head.value.id, volume), NULL_INDEX, head.prev));
      StoreLevels(s, Levels(s)[i := Level(lvl.price, volume, lvl.head, lvl.head)]);

      chains := chains[k := [lvl.head]];
      owner := Disowned(owner, a.chains[k][1..]);
      ghost var b := Snapshot();
      IsCollapsed(a, b, s, i, volume);
      CollapseRestores(a, b, s, i, volume);
    }

    /** Make `volume` the whole of what rests at a price; non-positive removes it.
        Identified orders behind the oldest one of the level are not allowed for. */
    method SetLevel(s: Side, price: Price, volume: Volume)
      requires Valid()
      requires volume > 0 ==> TailAnonymousAt(Contents().Of(s), price)
      requires Overwrite(Contents(), s, price, volume).Count() <= pool.capacity
      modifies this, pool
      ensures Valid()
      ensures Contents() == Overwrite(old(Contents()), s, price, volume)
    {
      hide Rep.Invariant, FreeListOk, Rep.FlatOf, Rep.SortedLevels, Better, Open, TailAnonymousAt, Rep.Abs, Overwrite;
      ghost var a := Snapshot();
      InvariantSorted(a);
      var i := FindLevel(s, price);
      var exists' := i < |Levels(s)| && Levels(s)[i].price == price;
      if volume <= 0 {
        if exists' {
          DropLevel(s, i);
          RemovalIsRemoval(a.Abs(), s, price, volume);
        } else {
          PriceMissing(a, s, price, i);
          SetIsAdd(a, s, price, volume);
        }
      } else if !exists' {
        PriceMissing(a, s, price, i);
        SetIsAdd(a, s, price, volume);
        RoomForOne(a, s, Entry(price, ANONYMOUS, volume));
        OpenLevel(s, i, price);
        JoinBack(ANONYMOUS, s, i, price, volume);
      } else {
        CollapseLevel(s, i, volume);
      }
    }

    // ------------------------------------------------------------------ queries

    /** The aggregate volume resting at a price, 0 if there is none. */
    method VolumeAtPrice(price: Price, s: Side) returns (volume: Volume)
      requires Valid()
      ensures volume == VolumeAt(Contents().Of(s), price)
    {
      hide Rep.SortedLevels, Rep.Totals, Flat, Rep.Sound, VolumeAt;
      ghost var a := Snapshot();
      SoundParts(a);
      var i := FindLevel(s, price);
      if i < |Levels(s)| && Levels(s)[i].price == price {
        CachedVolume(a, s, i);
        return Levels(s)[i].totalVolume;
      }
      PriceMissing(a, s, price, i);
      AvoidsMissing(a, s, price);
      VolumeAtAvoids(a.FlatOf(s), price);
      return 0;
    }

    /** The price of the first bid in priority order, if any. */
    method BestBid() returns (best: seq<Price>)
      requires Valid()
      ensures best == if Contents().bids == [] then [] else [Contents().bids[0].price]
    {
      hide Rep.Invariant, Rep.FlatOf;
      FlatFront(Snapshot(), Bid);
      return if bidLevels == [] then [] else [bidLevels[0].price];
    }

    /** The price of the first ask in priority order, if any. */
    method BestAsk() returns (best: seq<Price>)
      requires Valid()
      ensures best == if Contents().asks == [] then [] else [Contents().asks[0].price]
    {
      hide Rep.Invariant, Rep.FlatOf;
      FlatFront(Snapshot(), Ask);
      return if askLevels == [] then [] else [askLevels[0].price];
    }
  }
}
