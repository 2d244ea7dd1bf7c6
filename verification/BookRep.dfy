/** How the engine represents a book: pool nodes linked into one FIFO per price
    level, two sorted vectors of levels, and an id index. `Rep` is a snapshot of
    all of it together with two pieces of proof bookkeeping: the chain of nodes
    behind every level, and the level every node belongs to. */
module BookRep {
  import opened Market
  import opened PriceTime
  import opened ObjectPools

  datatype RestingOrder = RestingOrder(id: OrderId, volume: Volume)

  /** One price level: cached aggregate, oldest node and newest node. */
  datatype Level = Level(price: Price, totalVolume: Volume, head: int, tail: int)

  datatype Location = Location(side: Side, price: Price, node: int)

  datatype Key = Key(side: Side, price: Price)

  datatype Owner = Unowned | In(key: Key)

  type Nodes = seq<Node<RestingOrder>>

  type Chain = seq<int>

  // ------------------------------------------------------------------ chains

  function First(c: Chain): int {
    if c == [] then NULL_INDEX else c[0]
  }

  function Last(c: Chain): int {
    if c == [] then NULL_INDEX else c[|c| - 1]
  }

  function Remove<T>(c: seq<T>, j: nat): seq<T>
    requires j < |c|
  {
    c[..j] + c[j + 1..]
  }

  ghost predicate InRange(nodes: Nodes, c: Chain) {
    forall j :: 0 <= j < |c| ==> 0 <= c[j] < |nodes|
  }

  /** `c` is an acyclic doubly linked list in `nodes`. */
  ghost predicate Linked(nodes: Nodes, c: Chain) {
    && InRange(nodes, c)
    && Distinct(c)
    && (c != [] ==> nodes[First(c)].prev == NULL_INDEX && nodes[Last(c)].next == NULL_INDEX)
    && forall j, k :: 0 <= j && k == j + 1 && k < |c| ==> nodes[c[j]].next == c[k] && nodes[c[k]].prev == c[j]
  }

  function EntryAt(nodes: Nodes, price: Price, n: int): Entry
    requires 0 <= n < |nodes|
  {
    Entry(price, nodes[n].value.id, nodes[n].value.volume)
  }

  function Entries(nodes: Nodes, price: Price, c: Chain): (es: seq<Entry>)
    requires InRange(nodes, c)
    ensures |es| == |c|
    ensures forall j :: 0 <= j < |c| ==> es[j] == EntryAt(nodes, price, c[j])
  {
    if c == [] then [] else [EntryAt(nodes, price, c[0])] + Entries(nodes, price, c[1..])
  }

  ghost function EntriesAt(nodes: Nodes, chains: map<Key, Chain>, k: Key): seq<Entry> {
    if k in chains && InRange(nodes, chains[k]) then Entries(nodes, k.price, chains[k]) else []
  }

  /** The orders of a run of levels in price-then-time priority. */
  ghost function Flat(nodes: Nodes, chains: map<Key, Chain>, s: Side, levels: seq<Level>): seq<Entry> {
    if levels == [] then []
    else EntriesAt(nodes, chains, Key(s, levels[0].price)) + Flat(nodes, chains, s, levels[1..])
  }

  /** Node `n` spliced out of its list. */
  function UnlinkNodes(nodes: Nodes, n: int): (r: Nodes)
    requires 0 <= n < |nodes|
    requires nodes[n].prev == NULL_INDEX || 0 <= nodes[n].prev < |nodes|
    requires nodes[n].next == NULL_INDEX || 0 <= nodes[n].next < |nodes|
    ensures |r| == |nodes|
    ensures forall m :: 0 <= m < |nodes| ==>
              r[m] == Node(nodes[m].value,
                           if m == nodes[n].prev then nodes[n].next else nodes[m].next,
                           if m == nodes[n].next then nodes[n].prev else nodes[m].prev)
  {
    var p, q := nodes[n].prev, nodes[n].next;
    var bridged := if p != NULL_INDEX then nodes[p := nodes[p].(next := q)] else nodes;
    if q != NULL_INDEX then bridged[q := bridged[q].(prev := p)] else bridged
  }

  /** Node `n` linked behind `tail`. */
  function LinkedBehind(nodes: Nodes, tail: int, n: int): (r: Nodes)
    requires 0 <= tail < |nodes| && 0 <= n < |nodes|
    ensures |r| == |nodes|
  {
    var bridged := nodes[tail := nodes[tail].(next := n)];
    bridged[n := bridged[n].(prev := tail)]
  }

  // --------------------------------------------------------------- snapshots

  datatype Rep = Rep(nodes: Nodes, free: seq<int>, bids: seq<Level>, asks: seq<Level>,
                     index: map<OrderId, Location>, chains: map<Key, Chain>, owner: seq<Owner>)
  {
    function Levels(s: Side): seq<Level> {
      if s.Bid? then bids else asks
    }

    function WithLevels(s: Side, ls: seq<Level>): Rep {
      if s.Bid? then this.(bids := ls) else this.(asks := ls)
    }

    function KeyAt(s: Side, i: nat): Key
      requires i < |Levels(s)|
    {
      Key(s, Levels(s)[i].price)
    }

    ghost function FlatOf(s: Side): seq<Entry> {
      Flat(nodes, chains, s, Levels(s))
    }

    ghost function Abs(): Book {
      Book(FlatOf(Bid), FlatOf(Ask))
    }

    ghost function Above(s: Side, i: nat): seq<Entry>
      requires i < |Levels(s)|
    {
      Flat(nodes, chains, s, Levels(s)[..i])
    }

    ghost function Below(s: Side, i: nat): seq<Entry>
      requires i < |Levels(s)|
    {
      Flat(nodes, chains, s, Levels(s)[i + 1..])
    }

    /** Best price first, no price twice. */
    ghost predicate SortedLevels() {
      forall s: Side, i, j :: 0 <= i < j < |Levels(s)| ==> Better(s, Levels(s)[i].price, Levels(s)[j].price)
    }

    ghost predicate HasLevel(k: Key) {
      exists i :: 0 <= i < |Levels(k.side)| && Levels(k.side)[i].price == k.price
    }

    /** Levels and chains correspond one to one. */
    ghost predicate Keyed() {
      && (forall s: Side, i :: 0 <= i < |Levels(s)| ==> KeyAt(s, i) in chains)
      && (forall k :: k in chains ==> HasLevel(k))
    }

    /** Every level's head and tail bound its well-formed chain. */
    ghost predicate LinkedLevels() {
      && (forall k :: k in chains ==> Linked(nodes, chains[k]))
      && (forall s: Side, i :: 0 <= i < |Levels(s)| && KeyAt(s, i) in chains ==>
            Levels(s)[i].head == First(chains[KeyAt(s, i)]) && Levels(s)[i].tail == Last(chains[KeyAt(s, i)]))
    }

    /** A node is in the chain of its owner and in no other. */
    ghost predicate Owned() {
      && |owner| == |nodes|
      && (forall k, j :: k in chains && 0 <= j < |chains[k]| ==>
            0 <= chains[k][j] < |nodes| && owner[chains[k][j]] == In(k))
      && (forall n :: 0 <= n < |owner| && owner[n].In? ==>
            owner[n].key in chains && n in chains[owner[n].key])
    }

    /** The nodes in no chain are the free ones. */
    ghost predicate FreeOk() {
      && FreeListOk(|nodes|, free)
      && forall n :: 0 <= n < |owner| ==> (owner[n].Unowned? <==> n in free)
    }

    /** The index and the linked identified nodes are in bijection. */
    ghost predicate Indexed() {
      && |owner| == |nodes|
      && (forall id :: id in index ==>
            && id != ANONYMOUS
            && 0 <= index[id].node < |nodes|
            && owner[index[id].node] == In(Key(index[id].side, index[id].price))
            && nodes[index[id].node].value.id == id)
      && (forall n :: 0 <= n < |nodes| && owner[n].In? && nodes[n].value.id != ANONYMOUS ==>
            nodes[n].value.id in index && index[nodes[n].value.id].node == n)
    }

    ghost predicate Sound() {
      SortedLevels() && Keyed() && LinkedLevels() && Owned() && FreeOk() && Indexed()
    }

    /** The representation, whatever the index says. */
    ghost predicate Shaped() {
      SortedLevels() && Keyed() && LinkedLevels() && Owned() && FreeOk()
    }

    /** The cached total of every level, except perhaps `k`'s, is what its chain holds. */
    ghost predicate TotalsBut(k: Key) {
      forall s: Side, i :: 0 <= i < |Levels(s)| && KeyAt(s, i) != k ==>
        Levels(s)[i].totalVolume == Total(EntriesAt(nodes, chains, KeyAt(s, i)))
    }

    ghost predicate Totals() {
      forall s: Side, i :: 0 <= i < |Levels(s)| ==>
        Levels(s)[i].totalVolume == Total(EntriesAt(nodes, chains, KeyAt(s, i)))
    }

    ghost predicate FilledBut(k: Key) {
      forall l :: l in chains && l != k ==> chains[l] != []
    }

    ghost predicate Filled() {
      forall l :: l in chains ==> chains[l] != []
    }

    ghost predicate PositiveBut(m: int) {
      forall n :: 0 <= n < |nodes| && n < |owner| && owner[n].In? && n != m ==> nodes[n].value.volume > 0
    }

    /** As many live nodes as resting orders. */
    ghost predicate Counted() {
      |nodes| - |free| == Abs().Count()
    }

    /** What holds while level `k` is being drained: only it may be empty. */
    ghost predicate Draining(k: Key) {
      Sound() && Totals() && FilledBut(k) && PositiveBut(NULL_INDEX) && Counted()
    }

    /** What holds of the book even when an id was placed again while resting. */
    ghost predicate InvariantButIndex() {
      Shaped() && Totals() && Filled() && PositiveBut(NULL_INDEX) && Counted()
    }

    /** What holds of the book between any two public calls. */
    ghost predicate Invariant() {
      Sound() && Totals() && Filled() && PositiveBut(NULL_INDEX) && Counted()
    }
  }

  // ----------------------------------------------------------------- framing

  lemma {:induction false} FlatConcat(nodes: Nodes, chains: map<Key, Chain>, s: Side, xs: seq<Level>, ys: seq<Level>)
    ensures Flat(nodes, chains, s, xs + ys) == Flat(nodes, chains, s, xs) + Flat(nodes, chains, s, ys)
  {
    if xs == [] {
      assert xs + ys == ys;
    } else {
      assert (xs + ys)[1..] == xs[1..] + ys;
      FlatConcat(nodes, chains, s, xs[1..], ys);
    }
  }

  lemma FlatCons(nodes: Nodes, chains: map<Key, Chain>, s: Side, levels: seq<Level>)
    requires levels != []
    ensures Flat(nodes, chains, s, levels)
         == EntriesAt(nodes, chains, Key(s, levels[0].price)) + Flat(nodes, chains, s, levels[1..])
  {
  }

  lemma FlatAt(a: Rep, s: Side, i: nat)
    requires i < |a.Levels(s)|
    ensures a.FlatOf(s) == a.Above(s, i) + EntriesAt(a.nodes, a.chains, a.KeyAt(s, i)) + a.Below(s, i)
  {
    hide Flat, EntriesAt;
    var ls := a.Levels(s);
    FlatConcat(a.nodes, a.chains, s, ls[..i], ls[i..]);
    FlatCons(a.nodes, a.chains, s, ls[i..]);
    assert ls == ls[..i] + ls[i..];
    assert ls[i..][1..] == ls[i + 1..];
  }

  lemma {:induction false} FlatFrame(a: Rep, b: Rep, s: Side, xs: seq<Level>, ys: seq<Level>)
    requires |xs| == |ys|
    requires forall i :: 0 <= i < |xs| ==> ys[i].price == xs[i].price
    requires forall i :: 0 <= i < |xs| ==>
               EntriesAt(b.nodes, b.chains, Key(s, xs[i].price)) == EntriesAt(a.nodes, a.chains, Key(s, xs[i].price))
    ensures Flat(b.nodes, b.chains, s, ys) == Flat(a.nodes, a.chains, s, xs)
  {
    if xs != [] {
      FlatFrame(a, b, s, xs[1..], ys[1..]);
    }
  }

  /** `b` differs from `a` only in the chain of `k`, in nodes that chain owns,
      and in nodes no chain owns. */
  ghost predicate SameElsewhere(a: Rep, b: Rep, k: Key) {
    && |a.nodes| <= |b.nodes|
    && |a.owner| == |a.nodes|
    && (forall l :: l != k ==> (l in a.chains <==> l in b.chains))
    && (forall l :: l != k && l in a.chains && l in b.chains ==> b.chains[l] == a.chains[l])
    && (forall n :: 0 <= n < |a.nodes| && a.owner[n].In? && a.owner[n].key != k ==> b.nodes[n] == a.nodes[n])
  }

  lemma Elsewhere(a: Rep, b: Rep, k: Key, l: Key)
    requires a.Owned() && SameElsewhere(a, b, k) && l != k
    ensures EntriesAt(b.nodes, b.chains, l) == EntriesAt(a.nodes, a.chains, l)
    ensures l in a.chains && Linked(a.nodes, a.chains[l]) ==> Linked(b.nodes, b.chains[l])
  {
    if l in a.chains {
      var c := a.chains[l];
      forall j | 0 <= j < |c|
        ensures 0 <= c[j] < |a.nodes| && b.nodes[c[j]] == a.nodes[c[j]]
      {
        assert a.owner[c[j]] == In(l);
      }
    }
  }

  ghost predicate SamePrices(xs: seq<Level>, ys: seq<Level>) {
    |xs| == |ys| && forall i :: 0 <= i < |xs| ==> ys[i].price == xs[i].price
  }

  /** A change confined to level `i` changes only that level's stretch of the book. */
  lemma FlatLocal(a: Rep, b: Rep, s: Side, i: nat)
    requires a.Owned() && a.SortedLevels()
    requires i < |a.Levels(s)| && SameElsewhere(a, b, a.KeyAt(s, i))
    requires SamePrices(a.Levels(s), b.Levels(s)) && SamePrices(a.Levels(Opposed(s)), b.Levels(Opposed(s)))
    ensures b.FlatOf(s) == a.Above(s, i) + EntriesAt(b.nodes, b.chains, a.KeyAt(s, i)) + a.Below(s, i)
    ensures b.Above(s, i) == a.Above(s, i) && b.Below(s, i) == a.Below(s, i)
    ensures b.FlatOf(Opposed(s)) == a.FlatOf(Opposed(s))
  {
    var k := a.KeyAt(s, i);
    var o := Opposed(s);
    var xs, ys := a.Levels(s), b.Levels(s);
    forall l: Key | l != k
      ensures EntriesAt(b.nodes, b.chains, l) == EntriesAt(a.nodes, a.chains, l)
    {
      Elsewhere(a, b, k, l);
    }
    FlatFrame(a, b, o, a.Levels(o), b.Levels(o));
    FlatFrame(a, b, s, xs[..i], ys[..i]);
    FlatFrame(a, b, s, xs[i + 1..], ys[i + 1..]);
    FlatAt(b, s, i);
  }
}
