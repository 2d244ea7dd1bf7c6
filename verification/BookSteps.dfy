/** What each elementary change to the book's representation keeps, and what it
    does to the book represented. */
module BookSteps {
  import opened Market
  import opened PriceTime
  import opened ObjectPools
  import opened BookRep

  /** Nothing but side `s`'s level `i` and its links differ among the levels. */
  ghost predicate LevelChanged(a: Rep, b: Rep, s: Side, i: nat) {
    && i < |a.Levels(s)|
    && b.Levels(Opposed(s)) == a.Levels(Opposed(s))
    && |b.Levels(s)| == |a.Levels(s)|
    && b.Levels(s)[i].price == a.Levels(s)[i].price
    && forall j :: 0 <= j < |a.Levels(s)| && j != i ==> b.Levels(s)[j] == a.Levels(s)[j]
  }

  /** The caches and emptiness of every other level are as they were. */
  lemma OtherLevelsKept(a: Rep, b: Rep, s: Side, i: nat)
    requires a.Owned() && a.SortedLevels() && LevelChanged(a, b, s, i)
    requires SameElsewhere(a, b, a.KeyAt(s, i))
    ensures b.SortedLevels()
    ensures a.TotalsBut(a.KeyAt(s, i)) ==> b.TotalsBut(a.KeyAt(s, i))
    ensures a.FilledBut(a.KeyAt(s, i)) ==> b.FilledBut(a.KeyAt(s, i))
  {
    var k := a.KeyAt(s, i);
    forall t: Side, j | 0 <= j < |b.Levels(t)|
      ensures b.KeyAt(t, j) == a.KeyAt(t, j)
      ensures b.KeyAt(t, j) != k ==> b.Levels(t)[j] == a.Levels(t)[j]
      ensures b.KeyAt(t, j) != k ==>
                EntriesAt(b.nodes, b.chains, b.KeyAt(t, j)) == EntriesAt(a.nodes, a.chains, a.KeyAt(t, j))
    {
      if b.KeyAt(t, j) != k {
        Elsewhere(a, b, k, b.KeyAt(t, j));
      }
    }
  }

  lemma FlatStep(a: Rep, b: Rep, s: Side, i: nat)
    requires a.Owned() && a.SortedLevels() && LevelChanged(a, b, s, i)
    requires SameElsewhere(a, b, a.KeyAt(s, i))
    ensures b.FlatOf(s) == a.Above(s, i) + EntriesAt(b.nodes, b.chains, a.KeyAt(s, i)) + a.Below(s, i)
    ensures b.Above(s, i) == a.Above(s, i) && b.Below(s, i) == a.Below(s, i)
    ensures b.FlatOf(Opposed(s)) == a.FlatOf(Opposed(s))
  {
    FlatLocal(a, b, s, i);
  }

  lemma KeysKept(a: Rep, b: Rep, s: Side, i: nat)
    requires a.Keyed() && LevelChanged(a, b, s, i)
    requires SameElsewhere(a, b, a.KeyAt(s, i)) && a.KeyAt(s, i) in b.chains
    ensures b.Keyed()
  {
    var k := a.KeyAt(s, i);
    forall l | l in b.chains
      ensures b.HasLevel(l)
    {
      assert l == k || a.HasLevel(l);
      var j :| 0 <= j < |a.Levels(l.side)| && a.Levels(l.side)[j].price == l.price;
      assert b.Levels(l.side)[j].price == l.price;
    }
    forall t: Side, j | 0 <= j < |b.Levels(t)|
      ensures b.KeyAt(t, j) in b.chains
    {
      assert b.KeyAt(t, j) == a.KeyAt(t, j);
    }
  }

  lemma ChainsKept(a: Rep, b: Rep, k: Key)
    requires a.LinkedLevels() && a.Owned() && SameElsewhere(a, b, k)
    requires k in b.chains && Linked(b.nodes, b.chains[k])
    ensures forall l :: l in b.chains ==> Linked(b.nodes, b.chains[l])
  {
    hide Linked, First, Last, Rep.Owned;
    forall l | l in b.chains && l != k
      ensures Linked(b.nodes, b.chains[l])
    {
      Elsewhere(a, b, k, l);
    }
  }

  /** The head and tail of another level are still the ends of its chain. */
  lemma EndsKept(a: Rep, b: Rep, s: Side, i: nat, t: Side, j: nat)
    requires a.LinkedLevels() && a.Owned() && a.Keyed() && a.SortedLevels() && LevelChanged(a, b, s, i)
    requires SameElsewhere(a, b, a.KeyAt(s, i))
    requires j < |b.Levels(t)| && !(t == s && j == i) && b.KeyAt(t, j) in b.chains
    ensures b.Levels(t)[j].head == First(b.chains[b.KeyAt(t, j)])
    ensures b.Levels(t)[j].tail == Last(b.chains[b.KeyAt(t, j)])
  {
    hide Linked, First, Last, Rep.Owned;
    assert b.Levels(t)[j] == a.Levels(t)[j];
    assert b.KeyAt(t, j) == a.KeyAt(t, j) != a.KeyAt(s, i);
    Elsewhere(a, b, a.KeyAt(s, i), b.KeyAt(t, j));
  }

  /** The chain of level `i` is replaced by a well-formed one. */
  lemma LinksKept(a: Rep, b: Rep, s: Side, i: nat)
    requires a.LinkedLevels() && a.Owned() && a.Keyed() && LevelChanged(a, b, s, i)
    requires SameElsewhere(a, b, a.KeyAt(s, i)) && a.KeyAt(s, i) in b.chains
    requires Linked(b.nodes, b.chains[a.KeyAt(s, i)])
    requires b.Levels(s)[i].head == First(b.chains[a.KeyAt(s, i)])
    requires b.Levels(s)[i].tail == Last(b.chains[a.KeyAt(s, i)])
    requires a.SortedLevels()
    ensures b.LinkedLevels()
  {
    hide Linked, First, Last, Rep.Owned, Rep.SortedLevels, Rep.Keyed, SameElsewhere;
    ChainsKept(a, b, a.KeyAt(s, i));
    forall t: Side, j | 0 <= j < |b.Levels(t)| && b.KeyAt(t, j) in b.chains
      ensures b.Levels(t)[j].head == First(b.chains[b.KeyAt(t, j)])
      ensures b.Levels(t)[j].tail == Last(b.chains[b.KeyAt(t, j)])
    {
      if !(t == s && j == i) {
        EndsKept(a, b, s, i, t, j);
      }
    }
  }

  // ------------------------------------------------------- removing a node

  function PrevIn(c: Chain, j: nat): int
    requires j < |c|
  {
    if j == 0 then NULL_INDEX else c[j - 1]
  }

  function NextIn(c: Chain, j: nat): int
    requires j < |c|
  {
    if j + 1 == |c| then NULL_INDEX else c[j + 1]
  }

  lemma LinksAt(nodes: Nodes, c: Chain, j: nat)
    requires Linked(nodes, c) && j < |c|
    ensures nodes[c[j]].prev == PrevIn(c, j) && nodes[c[j]].next == NextIn(c, j)
  {
  }

  lemma RemoveDistinct(c: Chain, j: nat)
    requires Distinct(c) && j < |c|
    ensures Distinct(Remove(c, j)) && c[j] !in Remove(c, j)
    ensures forall m :: m in Remove(c, j) ==> m in c
    ensures forall m :: m in c ==> m == c[j] || m in Remove(c, j)
  {
  }

  lemma LinkedByLinks(nodes: Nodes, c: Chain)
    requires InRange(nodes, c) && Distinct(c)
    requires forall x :: 0 <= x < |c| ==> nodes[c[x]].prev == PrevIn(c, x) && nodes[c[x]].next == NextIn(c, x)
    ensures Linked(nodes, c)
  {
  }

  /** The links of the node at `y` once the one at `j` is spliced out. */
  lemma UnlinkedAt(nodes: Nodes, c: Chain, j: nat, y: nat)
    requires Linked(nodes, c) && j < |c| && y < |c| && y != j
    requires nodes[c[j]].prev == PrevIn(c, j) && nodes[c[j]].next == NextIn(c, j)
    ensures UnlinkNodes(nodes, c[j])[c[y]].prev == if y == j + 1 then PrevIn(c, j) else PrevIn(c, y)
    ensures UnlinkNodes(nodes, c[j])[c[y]].next == if y + 1 == j then NextIn(c, j) else NextIn(c, y)
  {
    hide UnlinkNodes, First, Last;
    LinksAt(nodes, c, y);
  }

  lemma LinkedIsDistinct(nodes: Nodes, c: Chain)
    requires Linked(nodes, c)
    ensures Distinct(c) && InRange(nodes, c)
  {
  }

  lemma UnlinkedElsewhere(nodes: Nodes, c: Chain, j: nat)
    requires Linked(nodes, c) && j < |c|
    requires nodes[c[j]].prev == PrevIn(c, j) && nodes[c[j]].next == NextIn(c, j)
    ensures forall m :: 0 <= m < |nodes| && m !in c ==> UnlinkNodes(nodes, c[j])[m] == nodes[m]
  {
    hide UnlinkNodes;
  }

  /** The same seen from the list without that node, at its position `x`. */
  lemma UnlinkedLinks(nodes: Nodes, c: Chain, j: nat, x: nat)
    requires Linked(nodes, c) && j < |c| && x + 1 < |c|
    requires nodes[c[j]].prev == PrevIn(c, j) && nodes[c[j]].next == NextIn(c, j)
    ensures var r, d := UnlinkNodes(nodes, c[j]), Remove(c, j);
      && 0 <= d[x] < |r| && r[d[x]].prev == PrevIn(d, x) && r[d[x]].next == NextIn(d, x)
  {
    hide UnlinkNodes, Distinct, First, Last;
    UnlinkedAt(nodes, c, j, if x < j then x else x + 1);
  }

  /** Splicing a node out leaves the rest of its list well formed and in order. */
  lemma UnlinkedChain(nodes: Nodes, c: Chain, j: nat)
    requires Linked(nodes, c) && j < |c|
    requires nodes[c[j]].prev == PrevIn(c, j) && nodes[c[j]].next == NextIn(c, j)
    ensures Linked(UnlinkNodes(nodes, c[j]), Remove(c, j))
    ensures forall m :: 0 <= m < |nodes| && m !in c ==> UnlinkNodes(nodes, c[j])[m] == nodes[m]
  {
    hide UnlinkNodes, Linked, Distinct, Remove;
    LinkedIsDistinct(nodes, c);
    UnlinkedElsewhere(nodes, c, j);
    RemoveDistinct(c, j);
    var d, r := Remove(c, j), UnlinkNodes(nodes, c[j]);
    RemoveLength(c, j);
    forall x | 0 <= x < |d|
      ensures 0 <= d[x] < |r| && r[d[x]].prev == PrevIn(d, x) && r[d[x]].next == NextIn(d, x)
    {
      UnlinkedLinks(nodes, c, j, x);
    }
    LinkedByLinks(r, d);
  }

  lemma RemoveLength(c: Chain, j: nat)
    requires j < |c|
    ensures |Remove(c, j)| == |c| - 1
  {
  }

  ghost predicate Removed(a: Rep, b: Rep, s: Side, i: nat, j: nat)
    requires a.Sound() && i < |a.Levels(s)|
    requires j < |a.chains[a.KeyAt(s, i)]|
  {
    var k := a.KeyAt(s, i);
    var n := a.chains[k][j];
    LinksAt(a.nodes, a.chains[k], j);
    && b.nodes == UnlinkNodes(a.nodes, n)
    && b.free == a.free + [n]
    && b.chains == a.chains[k := Remove(a.chains[k], j)]
    && b.owner == a.owner[n := Unowned]
    && b.index == a.index - {a.nodes[n].value.id}
    && LevelChanged(a, b, s, i)
    && b.Levels(s)[i].head == First(b.chains[k])
    && b.Levels(s)[i].tail == Last(b.chains[k])
  }

  lemma RemovedIsLocal(a: Rep, b: Rep, s: Side, i: nat, j: nat)
    requires a.Sound() && i < |a.Levels(s)| && j < |a.chains[a.KeyAt(s, i)]|
    requires Removed(a, b, s, i, j)
    ensures SameElsewhere(a, b, a.KeyAt(s, i))
  {
    hide Rep.Indexed, Rep.FreeOk, Rep.SortedLevels, Rep.LinkedLevels, Linked, UnlinkNodes;
    var k := a.KeyAt(s, i);
    var c := a.chains[k];
    ChainAt(a, s, i);
    LinksAt(a.nodes, c, j);
    UnlinkedChain(a.nodes, c, j);
  }

  lemma RemovedOwners(a: Rep, b: Rep, k: Key, n: int, d: Chain)
    requires a.Owned() && k in a.chains && n in a.chains[k]
    requires |b.nodes| == |a.nodes|
    requires b.chains == a.chains[k := d] && b.owner == a.owner[n := Unowned]
    requires n !in d && (forall m :: m in d ==> m in a.chains[k])
    requires forall m :: m in a.chains[k] ==> m == n || m in d
    ensures b.Owned()
  {
    forall l, x | l in b.chains && 0 <= x < |b.chains[l]|
      ensures 0 <= b.chains[l][x] < |b.nodes| && b.owner[b.chains[l][x]] == In(l)
    {
      if l == k {
        assert d[x] in d;
      } else {
        assert a.owner[a.chains[l][x]] == In(l) && a.owner[n] == In(k);
      }
    }
  }

  lemma RemovedFree(a: Rep, b: Rep, k: Key, n: int)
    requires a.Owned() && a.FreeOk() && k in a.chains && n in a.chains[k]
    requires |b.nodes| == |a.nodes|
    requires b.owner == a.owner[n := Unowned] && b.free == a.free + [n]
    ensures b.FreeOk()
  {
  }

  lemma RemovedIndex(a: Rep, b: Rep, n: int)
    requires a.Indexed() && 0 <= n < |a.nodes| && a.owner[n].In?
    requires |b.nodes| == |a.nodes|
    requires forall m :: 0 <= m < |a.nodes| ==> b.nodes[m].value == a.nodes[m].value
    requires b.owner == a.owner[n := Unowned] && b.index == a.index - {a.nodes[n].value.id}
    ensures b.Indexed()
  {
  }

  lemma RemovedEntries(a: Rep, b: Rep, k: Key, j: nat)
    requires k in a.chains && Linked(a.nodes, a.chains[k]) && j < |a.chains[k]|
    requires b.chains == a.chains[k := Remove(a.chains[k], j)]
    requires |b.nodes| == |a.nodes|
    requires forall m :: 0 <= m < |a.nodes| ==> b.nodes[m].value == a.nodes[m].value
    ensures |EntriesAt(a.nodes, a.chains, k)| == |a.chains[k]|
    ensures EntriesAt(b.nodes, b.chains, k) == Remove(EntriesAt(a.nodes, a.chains, k), j)
  {
  }

  lemma RemoveSound(a: Rep, b: Rep, s: Side, i: nat, j: nat)
    requires a.Sound() && i < |a.Levels(s)| && j < |a.chains[a.KeyAt(s, i)]|
    requires Removed(a, b, s, i, j)
    ensures b.Owned() && b.FreeOk() && b.Indexed() && b.Keyed() && b.LinkedLevels()
    ensures SameElsewhere(a, b, a.KeyAt(s, i))
    ensures |b.nodes| == |a.nodes|
    ensures forall m :: 0 <= m < |a.nodes| ==> b.nodes[m].value == a.nodes[m].value
  {
    hide Rep.Indexed, Rep.FreeOk, Rep.SortedLevels, Rep.LinkedLevels, UnlinkNodes, SameElsewhere;
    var k := a.KeyAt(s, i);
    var c := a.chains[k];
    ChainAt(a, s, i);
    LinksAt(a.nodes, c, j);
    UnlinkedChain(a.nodes, c, j);
    RemoveDistinct(c, j);
    RemovedIsLocal(a, b, s, i, j);
    RemovedOwners(a, b, k, c[j], Remove(c, j));
    RemovedFree(a, b, k, c[j]);
    RemovedIndex(a, b, c[j]);
    KeysKept(a, b, s, i);
    LinksKept(a, b, s, i);
  }

  lemma RemovedPositive(a: Rep, b: Rep, n: int)
    requires a.PositiveBut(n) && 0 <= n < |a.owner| && b.owner == a.owner[n := Unowned]
    requires |b.nodes| == |a.nodes|
    requires forall m :: 0 <= m < |a.nodes| ==> b.nodes[m].value == a.nodes[m].value
    ensures b.PositiveBut(NULL_INDEX)
  {
  }

  /** Taking node `j` of level `i` out of its chain, the index and the live nodes
      keeps the representation. */
  lemma RemoveKeeps(a: Rep, b: Rep, s: Side, i: nat, j: nat)
    requires a.Sound() && i < |a.Levels(s)| && j < |a.chains[a.KeyAt(s, i)]|
    requires Removed(a, b, s, i, j)
    ensures b.Sound()
    ensures a.PositiveBut(a.chains[a.KeyAt(s, i)][j]) ==> b.PositiveBut(NULL_INDEX)
    ensures a.TotalsBut(a.KeyAt(s, i)) ==> b.TotalsBut(a.KeyAt(s, i))
    ensures a.FilledBut(a.KeyAt(s, i)) ==> b.FilledBut(a.KeyAt(s, i))
  {
    RemoveSound(a, b, s, i, j);
    OtherLevelsKept(a, b, s, i);
    if a.PositiveBut(a.chains[a.KeyAt(s, i)][j]) {
      RemovedPositive(a, b, a.chains[a.KeyAt(s, i)][j]);
    }
  }

  /** ... and deletes exactly that order from the book. */
  lemma RemoveDeletes(a: Rep, b: Rep, s: Side, i: nat, j: nat)
    requires a.Sound() && i < |a.Levels(s)| && j < |a.chains[a.KeyAt(s, i)]|
    requires Removed(a, b, s, i, j)
    ensures var es := EntriesAt(a.nodes, a.chains, a.KeyAt(s, i));
      |es| == |a.chains[a.KeyAt(s, i)]|
      && EntriesAt(b.nodes, b.chains, a.KeyAt(s, i)) == Remove(es, j)
      && b.FlatOf(s) == a.Above(s, i) + Remove(es, j) + a.Below(s, i)
    ensures b.FlatOf(Opposed(s)) == a.FlatOf(Opposed(s))
  {
    RemoveSound(a, b, s, i, j);
    RemovedEntries(a, b, a.KeyAt(s, i), j);
    FlatStep(a, b, s, i);
  }

  lemma ChainAt(a: Rep, s: Side, i: nat)
    requires a.Keyed() && a.LinkedLevels() && i < |a.Levels(s)|
    ensures a.KeyAt(s, i) in a.chains && Linked(a.nodes, a.chains[a.KeyAt(s, i)])
  {
  }

  lemma PricesDiffer(a: Rep, s: Side, i: nat, j: nat)
    requires a.SortedLevels() && i < |a.Levels(s)| && j < |a.Levels(s)| && i != j
    ensures a.Levels(s)[i].price != a.Levels(s)[j].price
  {
  }

  lemma TotalsFrom(a: Rep, s: Side, i: nat)
    requires a.SortedLevels() && i < |a.Levels(s)| && a.TotalsBut(a.KeyAt(s, i))
    requires a.Levels(s)[i].totalVolume == Total(EntriesAt(a.nodes, a.chains, a.KeyAt(s, i)))
    ensures a.Totals()
  {
  }

  // ----------------------------------------------- taking volume at the front

  function Taken(n: Node<RestingOrder>, take: Volume): Node<RestingOrder> {
    n.(value := n.value.(volume := n.value.volume - take))
  }

  /** `take` units go from the oldest order of level `i` and from its cached total. */
  ghost predicate FrontTaken(a: Rep, b: Rep, s: Side, i: nat, take: Volume)
    requires a.Sound() && i < |a.Levels(s)| && a.chains[a.KeyAt(s, i)] != []
  {
    var h := a.chains[a.KeyAt(s, i)][0];
    && b.nodes == a.nodes[h := Taken(a.nodes[h], take)]
    && b.free == a.free && b.chains == a.chains && b.owner == a.owner && b.index == a.index
    && LevelChanged(a, b, s, i)
    && b.Levels(s)[i] == a.Levels(s)[i].(totalVolume := a.Levels(s)[i].totalVolume - take)
  }

  lemma TakenEntries(a: Rep, b: Rep, k: Key, take: Volume)
    requires k in a.chains && Linked(a.nodes, a.chains[k]) && a.chains[k] != []
    requires b.chains == a.chains
    requires b.nodes == a.nodes[a.chains[k][0] := Taken(a.nodes[a.chains[k][0]], take)]
    ensures Linked(b.nodes, b.chains[k])
    ensures var es := EntriesAt(a.nodes, a.chains, k);
            var fs := EntriesAt(b.nodes, b.chains, k);
      && |es| == |a.chains[k]|
      && fs == [es[0].(volume := es[0].volume - take)] + es[1..]
      && Total(fs) == Total(es) - take
  {
  }

  lemma TakenIsLocal(a: Rep, b: Rep, s: Side, i: nat, take: Volume)
    requires a.Sound() && i < |a.Levels(s)| && a.chains[a.KeyAt(s, i)] != []
    requires FrontTaken(a, b, s, i, take)
    ensures SameElsewhere(a, b, a.KeyAt(s, i))
    ensures b.Owned() && b.FreeOk()
  {
    hide Rep.LinkedLevels, Rep.Indexed, Rep.SortedLevels;
    assert a.owner[a.chains[a.KeyAt(s, i)][0]] == In(a.KeyAt(s, i));
  }

  lemma TakenIndexed(a: Rep, b: Rep, n: int, take: Volume)
    requires a.Indexed() && 0 <= n < |a.nodes|
    requires b.nodes == a.nodes[n := Taken(a.nodes[n], take)] && b.index == a.index && b.owner == a.owner
    ensures b.Indexed()
  {
  }

  lemma TakeSound(a: Rep, b: Rep, s: Side, i: nat, take: Volume)
    requires a.Sound() && i < |a.Levels(s)| && a.chains[a.KeyAt(s, i)] != []
    requires FrontTaken(a, b, s, i, take)
    ensures b.Owned() && b.FreeOk() && b.Indexed() && b.Keyed() && b.LinkedLevels()
  {
    hide Rep.Indexed, Rep.SortedLevels, Rep.FreeOk;
    TakenIsLocal(a, b, s, i, take);
    TakenEntries(a, b, a.KeyAt(s, i), take);
    TakenIndexed(a, b, a.chains[a.KeyAt(s, i)][0], take);
    KeysKept(a, b, s, i);
    LinksKept(a, b, s, i);
  }

  lemma TakenFacts(a: Rep, b: Rep, s: Side, i: nat, take: Volume)
    requires a.Sound() && i < |a.Levels(s)| && a.chains[a.KeyAt(s, i)] != []
    requires FrontTaken(a, b, s, i, take)
    ensures a.Owned() && a.SortedLevels() && LevelChanged(a, b, s, i)
    ensures SameElsewhere(a, b, a.KeyAt(s, i))
    ensures var es := EntriesAt(a.nodes, a.chains, a.KeyAt(s, i));
            var fs := EntriesAt(b.nodes, b.chains, a.KeyAt(s, i));
      && |es| == |a.chains[a.KeyAt(s, i)]|
      && fs == [es[0].(volume := es[0].volume - take)] + es[1..]
      && Total(fs) == Total(es) - take
  {
    hide Rep.Indexed, Rep.FreeOk, Rep.Owned, Rep.SortedLevels, Rep.Keyed, Rep.LinkedLevels,
         EntriesAt, Total, SameElsewhere, Linked, Taken;
    ChainAt(a, s, i);
    TakenIsLocal(a, b, s, i, take);
    TakenEntries(a, b, a.KeyAt(s, i), take);
  }

  lemma TakeKeeps(a: Rep, b: Rep, s: Side, i: nat, take: Volume)
    requires a.Sound() && i < |a.Levels(s)| && a.chains[a.KeyAt(s, i)] != []
    requires FrontTaken(a, b, s, i, take)
    ensures b.Sound()
    ensures a.PositiveBut(NULL_INDEX) ==> b.PositiveBut(a.chains[a.KeyAt(s, i)][0])
  {
    hide Rep.Indexed, Rep.FreeOk, Rep.LinkedLevels, EntriesAt;
    TakenFacts(a, b, s, i, take);
    TakeSound(a, b, s, i, take);
    OtherLevelsKept(a, b, s, i);
  }

  lemma TakeTotals(a: Rep, b: Rep, s: Side, i: nat, take: Volume)
    requires a.Sound() && i < |a.Levels(s)| && a.chains[a.KeyAt(s, i)] != []
    requires FrontTaken(a, b, s, i, take)
    requires a.Totals()
    ensures b.Totals()
  {
    hide Rep.Indexed, Rep.FreeOk, Rep.LinkedLevels, Rep.Owned, EntriesAt, SameElsewhere;
    TakenFacts(a, b, s, i, take);
    OtherLevelsKept(a, b, s, i);
    TotalsFrom(b, s, i);
  }

  lemma TakeReduces(a: Rep, b: Rep, s: Side, i: nat, take: Volume)
    requires a.Sound() && i < |a.Levels(s)| && a.chains[a.KeyAt(s, i)] != []
    requires FrontTaken(a, b, s, i, take)
    ensures var es := EntriesAt(a.nodes, a.chains, a.KeyAt(s, i));
      |es| == |a.chains[a.KeyAt(s, i)]|
      && var fs := [es[0].(volume := es[0].volume - take)] + es[1..];
         && b.FlatOf(s) == a.Above(s, i) + fs + a.Below(s, i)
         && EntriesAt(b.nodes, b.chains, a.KeyAt(s, i)) == fs
    ensures b.FlatOf(Opposed(s)) == a.FlatOf(Opposed(s))
  {
    hide *;
    TakenFacts(a, b, s, i, take);
    FlatStep(a, b, s, i);
  }

  // ------------------------------------------------- adding an order at the back

  /** `nodes` after a fresh node `n` has been linked in behind the tail of `c`. */
  function Appended(nodes: Nodes, c: Chain, n: int, order: RestingOrder): Nodes
    requires InRange(nodes, c) && 0 <= n <= |nodes| && n !in c
  {
    var grown := Put(nodes, n, Node(order, NULL_INDEX, NULL_INDEX));
    if c == [] then grown else LinkedBehind(grown, Last(c), n)
  }

  lemma AppendedChain(nodes: Nodes, c: Chain, n: int, order: RestingOrder)
    requires Linked(nodes, c) && 0 <= n <= |nodes| && n !in c
    ensures Linked(Appended(nodes, c, n, order), c + [n])
    ensures forall m :: 0 <= m < |nodes| && m != n && m !in c ==> Appended(nodes, c, n, order)[m] == nodes[m]
    ensures forall m :: 0 <= m < |nodes| && m != n ==> Appended(nodes, c, n, order)[m].value == nodes[m].value
    ensures n < |Appended(nodes, c, n, order)| && Appended(nodes, c, n, order)[n].value == order
    ensures |Appended(nodes, c, n, order)| == if n == |nodes| then n + 1 else |nodes|
  {
    var r, d := Appended(nodes, c, n, order), c + [n];
    forall x, y | 0 <= x && y == x + 1 && y < |d|
      ensures r[d[x]].next == d[y] && r[d[y]].prev == d[x]
    {
      if y < |c| {
        assert nodes[c[x]].next == c[y] && nodes[c[y]].prev == c[x];
      }
    }
  }

  /** A fresh node holding `order` joins the back of level `i`. */
  ghost predicate Joined(a: Rep, b: Rep, s: Side, i: nat, n: int, order: RestingOrder)
    requires a.Sound() && i < |a.Levels(s)|
  {
    var k := a.KeyAt(s, i);
    && 0 <= n <= |a.nodes| && (n < |a.nodes| ==> n in a.free) && n !in a.chains[k]
    && b.nodes == Appended(a.nodes, a.chains[k], n, order)
    && (if n == |a.nodes| then a.free == b.free == [] else a.free == b.free + [n])
    && b.chains == a.chains[k := a.chains[k] + [n]]
    && b.owner == Put(a.owner, n, In(k))
    && b.index == (if order.id == ANONYMOUS then a.index else a.index[order.id := Location(s, k.price, n)])
    && LevelChanged(a, b, s, i)
    && b.Levels(s)[i] == Level(k.price, a.Levels(s)[i].totalVolume + order.volume, First(b.chains[k]), n)
  }

  lemma JoinedOwners(a: Rep, b: Rep, k: Key, n: int)
    requires a.Owned() && k in a.chains && 0 <= n <= |a.nodes|
    requires n < |a.nodes| ==> a.owner[n] == Unowned
    requires |b.nodes| == |b.owner|
    requires b.chains == a.chains[k := a.chains[k] + [n]] && b.owner == Put(a.owner, n, In(k))
    ensures b.Owned()
  {
  }

  lemma JoinedIndex(a: Rep, b: Rep, k: Key, n: int, order: RestingOrder)
    requires a.Indexed() && 0 <= n <= |a.nodes| && (n < |a.nodes| ==> a.owner[n] == Unowned)
    requires order.id == ANONYMOUS || order.id !in a.index
    requires |b.nodes| == |b.owner| && b.owner == Put(a.owner, n, In(k))
    requires b.nodes[n].value == order
    requires forall m :: 0 <= m < |a.nodes| && m != n ==> b.nodes[m].value == a.nodes[m].value
    requires b.index == if order.id == ANONYMOUS then a.index
                        else a.index[order.id := Location(k.side, k.price, n)]
    ensures b.Indexed()
  {
  }

  lemma JoinSound(a: Rep, b: Rep, s: Side, i: nat, n: int, order: RestingOrder)
    requires a.Sound() && i < |a.Levels(s)| && Joined(a, b, s, i, n, order)
    ensures b.Owned() && b.FreeOk()
    ensures (order.id == ANONYMOUS || order.id !in a.index) ==> b.Indexed()
    ensures SameElsewhere(a, b, a.KeyAt(s, i))
  {
    hide Rep.Indexed, Rep.SortedLevels, Rep.LinkedLevels, Linked, SameElsewhere, Appended;
    var k := a.KeyAt(s, i);
    ChainAt(a, s, i);
    AppendedChain(a.nodes, a.chains[k], n, order);
    assert n < |a.nodes| ==> a.owner[n] == Unowned;
    JoinedOwners(a, b, k, n);
    if order.id == ANONYMOUS || order.id !in a.index {
      JoinedIndex(a, b, k, n, order);
    }
    JoinedFree(a, b, k, n);
    JoinedIsLocal(a, b, k, n);
  }

  lemma JoinLinks(a: Rep, b: Rep, s: Side, i: nat, n: int, order: RestingOrder)
    requires a.Sound() && i < |a.Levels(s)| && Joined(a, b, s, i, n, order)
    ensures b.Keyed() && b.LinkedLevels()
  {
    hide Rep.Indexed, Rep.SortedLevels, Linked, Rep.Owned, Rep.FreeOk, SameElsewhere, Appended;
    JoinSound(a, b, s, i, n, order);
    AppendedChain(a.nodes, a.chains[a.KeyAt(s, i)], n, order);
    KeysKept(a, b, s, i);
    LinksKept(a, b, s, i);
  }

  lemma JoinedFree(a: Rep, b: Rep, k: Key, n: int)
    requires a.FreeOk() && 0 <= n <= |a.nodes| == |a.owner| && b.owner == Put(a.owner, n, In(k))
    requires |b.nodes| == |b.owner|
    requires if n == |a.nodes| then a.free == b.free == [] else a.free == b.free + [n]
    ensures b.FreeOk()
  {
    if n < |a.nodes| {
      assert a.free[|b.free|] == n;
      forall x | 0 <= x < |b.free|
        ensures b.free[x] == a.free[x]
      {
      }
      forall m | 0 <= m < |b.owner|
        ensures b.owner[m].Unowned? <==> m in b.free
      {
        assert m in a.free <==> m in b.free || m == n;
      }
    }
  }

  lemma JoinedIsLocal(a: Rep, b: Rep, k: Key, n: int)
    requires a.Owned() && 0 <= n <= |a.nodes| && (n < |a.nodes| ==> a.owner[n] == Unowned)
    requires k in a.chains && |a.nodes| <= |b.nodes|
    requires b.chains.Keys == a.chains.Keys && forall l :: l in a.chains && l != k ==> b.chains[l] == a.chains[l]
    requires forall m :: 0 <= m < |a.nodes| && m != n && m !in a.chains[k] ==> b.nodes[m] == a.nodes[m]
    ensures SameElsewhere(a, b, k)
  {
  }

  lemma {:induction false} TotalConcat(xs: seq<Entry>, ys: seq<Entry>)
    ensures Total(xs + ys) == Total(xs) + Total(ys)
  {
    if xs == [] {
      assert xs + ys == ys;
    } else {
      assert (xs + ys)[1..] == xs[1..] + ys;
      TotalConcat(xs[1..], ys);
    }
  }

  lemma JoinedEntries(a: Rep, b: Rep, k: Key, n: int, order: RestingOrder)
    requires k in a.chains && Linked(a.nodes, a.chains[k]) && 0 <= n <= |a.nodes| && n !in a.chains[k]
    requires b.nodes == Appended(a.nodes, a.chains[k], n, order)
    requires b.chains == a.chains[k := a.chains[k] + [n]]
    ensures var es := EntriesAt(a.nodes, a.chains, k);
            var e := Entry(k.price, order.id, order.volume);
      EntriesAt(b.nodes, b.chains, k) == es + [e] && Total(es + [e]) == Total(es) + order.volume
  {
    hide Appended, Total, Linked;
    LinkedIsDistinct(a.nodes, a.chains[k]);
    AppendedEntries(a.nodes, k.price, a.chains[k], n, order);
    TotalAppend(Entries(a.nodes, k.price, a.chains[k]), Entry(k.price, order.id, order.volume));
  }

  lemma AppendedEntries(nodes: Nodes, price: Price, c: Chain, n: int, order: RestingOrder)
    requires Linked(nodes, c) && 0 <= n <= |nodes| && n !in c
    ensures var after := Appended(nodes, c, n, order);
      InRange(after, c + [n])
      && Entries(after, price, c + [n]) == Entries(nodes, price, c) + [Entry(price, order.id, order.volume)]
  {
    hide Appended, Linked, Entries;
    LinkedIsDistinct(nodes, c);
    AppendedChain(nodes, c, n, order);
    LinkedIsDistinct(Appended(nodes, c, n, order), c + [n]);
  }

  lemma TotalAppend(es: seq<Entry>, e: Entry)
    ensures Total(es + [e]) == Total(es) + e.volume
  {
    TotalConcat(es, [e]);
  }

  lemma JoinedFacts(a: Rep, b: Rep, s: Side, i: nat, n: int, order: RestingOrder)
    requires a.Sound() && i < |a.Levels(s)| && Joined(a, b, s, i, n, order)
    ensures a.Owned() && a.SortedLevels() && LevelChanged(a, b, s, i)
    ensures SameElsewhere(a, b, a.KeyAt(s, i))
    ensures var k := a.KeyAt(s, i);
            var es := EntriesAt(a.nodes, a.chains, k);
            var e := Entry(k.price, order.id, order.volume);
      EntriesAt(b.nodes, b.chains, k) == es + [e] && Total(es + [e]) == Total(es) + order.volume
    ensures b.Levels(s)[i].totalVolume == a.Levels(s)[i].totalVolume + order.volume
  {
    hide Rep.Indexed, Rep.FreeOk, Rep.Owned, Rep.SortedLevels, EntriesAt, Total, SameElsewhere, Linked, Appended;
    JoinSound(a, b, s, i, n, order);
    JoinedEntries(a, b, a.KeyAt(s, i), n, order);
  }

  lemma JoinedPositive(a: Rep, b: Rep, s: Side, i: nat, n: int, order: RestingOrder)
    requires a.Sound() && i < |a.Levels(s)| && Joined(a, b, s, i, n, order)
    requires a.PositiveBut(NULL_INDEX) && order.volume > 0
    ensures b.PositiveBut(NULL_INDEX)
  {
    hide Rep.Indexed, Rep.SortedLevels, Linked, Appended;
    AppendedChain(a.nodes, a.chains[a.KeyAt(s, i)], n, order);
  }

  /** A new order at the back of level `i` keeps the representation, index included if
      its id was free ... */
  lemma JoinKeeps(a: Rep, b: Rep, s: Side, i: nat, n: int, order: RestingOrder)
    requires a.Sound() && i < |a.Levels(s)| && Joined(a, b, s, i, n, order)
    requires a.FilledBut(a.KeyAt(s, i)) && a.PositiveBut(NULL_INDEX) && order.volume > 0
    ensures b.Shaped() && b.Filled() && b.PositiveBut(NULL_INDEX)
    ensures (order.id == ANONYMOUS || order.id !in a.index) ==> b.Indexed()
  {
    hide Rep.Indexed, Rep.FreeOk, Rep.Owned, Rep.SortedLevels, Rep.LinkedLevels, Rep.Keyed, EntriesAt, Total,
         SameElsewhere, Linked, Appended, Rep.PositiveBut;
    JoinedFacts(a, b, s, i, n, order);
    JoinSound(a, b, s, i, n, order);
    JoinLinks(a, b, s, i, n, order);
    OtherLevelsKept(a, b, s, i);
    JoinedPositive(a, b, s, i, n, order);
  }

  lemma JoinTotals(a: Rep, b: Rep, s: Side, i: nat, n: int, order: RestingOrder)
    requires a.Sound() && i < |a.Levels(s)| && Joined(a, b, s, i, n, order)
    requires a.Totals()
    ensures b.Totals()
  {
    hide Rep.Indexed, Rep.FreeOk, Rep.LinkedLevels, Rep.Owned, EntriesAt, SameElsewhere, Joined, Rep.Sound, Total;
    JoinedFacts(a, b, s, i, n, order);
    OtherLevelsKept(a, b, s, i);
    TotalsFrom(b, s, i);
  }

  /** ... and adds exactly that order to the book, behind its level. */
  lemma JoinAdds(a: Rep, b: Rep, s: Side, i: nat, n: int, order: RestingOrder)
    requires a.Sound() && i < |a.Levels(s)| && Joined(a, b, s, i, n, order)
    ensures var k := a.KeyAt(s, i);
      b.FlatOf(s) == a.Above(s, i)
                     + (EntriesAt(a.nodes, a.chains, k) + [Entry(k.price, order.id, order.volume)])
                     + a.Below(s, i)
    ensures b.FlatOf(Opposed(s)) == a.FlatOf(Opposed(s))
  {
    hide *;
    JoinedFacts(a, b, s, i, n, order);
    FlatStep(a, b, s, i);
  }

  // ------------------------------------------------------- levels come and go

  /** The levels kept are the ones they were, in order. */
  lemma {:induction false} FlatOthers(a: Rep, b: Rep, s: Side, xs: seq<Level>, k: Key)
    requires a.Owned() && SameElsewhere(a, b, k)
    requires forall i :: 0 <= i < |xs| ==> Key(s, xs[i].price) != k
    ensures Flat(b.nodes, b.chains, s, xs) == Flat(a.nodes, a.chains, s, xs)
  {
    forall i | 0 <= i < |xs|
      ensures EntriesAt(b.nodes, b.chains, Key(s, xs[i].price)) == EntriesAt(a.nodes, a.chains, Key(s, xs[i].price))
    {
      Elsewhere(a, b, k, Key(s, xs[i].price));
    }
    FlatFrame(a, b, s, xs, xs);
  }

  /** Level `i` of side `s`, which holds nothing, goes away. */
  ghost predicate Erased(a: Rep, b: Rep, s: Side, i: nat) {
    && i < |a.Levels(s)|
    && a.KeyAt(s, i) in a.chains && a.chains[a.KeyAt(s, i)] == []
    && b == a.WithLevels(s, Remove(a.Levels(s), i)).(chains := a.chains - {a.KeyAt(s, i)})
  }

  lemma ErasedAt(a: Rep, b: Rep, s: Side, i: nat, t: Side, j: nat)
    requires a.SortedLevels() && Erased(a, b, s, i) && j < |b.Levels(t)|
    ensures var p := if t == s && j >= i then j + 1 else j;
      && p < |a.Levels(t)| && b.Levels(t)[j] == a.Levels(t)[p] && b.KeyAt(t, j) == a.KeyAt(t, p)
      && b.KeyAt(t, j) != a.KeyAt(s, i)
  {
  }

  lemma EraseSorted(a: Rep, b: Rep, s: Side, i: nat)
    requires a.SortedLevels() && Erased(a, b, s, i)
    ensures b.SortedLevels()
  {
    forall t: Side, j, x | 0 <= j < x < |b.Levels(t)|
      ensures Better(t, b.Levels(t)[j].price, b.Levels(t)[x].price)
    {
      ErasedAt(a, b, s, i, t, j);
      ErasedAt(a, b, s, i, t, x);
    }
  }

  lemma EraseKeyed(a: Rep, b: Rep, s: Side, i: nat)
    requires a.SortedLevels() && a.Keyed() && Erased(a, b, s, i)
    ensures b.Keyed()
  {
    hide Rep.SortedLevels, Rep.HasLevel;
    forall t: Side, j | 0 <= j < |b.Levels(t)|
      ensures b.KeyAt(t, j) in b.chains
    {
      ErasedAt(a, b, s, i, t, j);
    }
    forall l | l in b.chains
      ensures b.HasLevel(l)
    {
      EraseHasLevel(a, b, s, i, l);
    }
  }

  lemma EraseHasLevel(a: Rep, b: Rep, s: Side, i: nat, l: Key)
    requires a.SortedLevels() && a.Keyed() && Erased(a, b, s, i) && l in b.chains
    ensures b.HasLevel(l)
  {
    hide Rep.SortedLevels;
    assert a.HasLevel(l);
    var p :| 0 <= p < |a.Levels(l.side)| && a.Levels(l.side)[p].price == l.price;
    var j := if l.side == s && p > i then p - 1 else p;
    assert b.Levels(l.side)[j] == a.Levels(l.side)[p];
  }

  lemma EraseLinked(a: Rep, b: Rep, s: Side, i: nat)
    requires a.SortedLevels() && a.Keyed() && a.LinkedLevels() && Erased(a, b, s, i)
    ensures b.LinkedLevels()
  {
    hide Rep.SortedLevels, Linked;
    forall t: Side, j | 0 <= j < |b.Levels(t)| && b.KeyAt(t, j) in b.chains
      ensures b.Levels(t)[j].head == First(b.chains[b.KeyAt(t, j)])
      ensures b.Levels(t)[j].tail == Last(b.chains[b.KeyAt(t, j)])
    {
      ErasedAt(a, b, s, i, t, j);
    }
  }

  lemma EraseOthers(a: Rep, b: Rep, s: Side, i: nat)
    requires a.Owned() && a.FreeOk() && a.Indexed() && Erased(a, b, s, i)
    ensures b.Owned() && b.FreeOk() && b.Indexed()
    ensures forall m :: a.PositiveBut(m) ==> b.PositiveBut(m)
    ensures a.FilledBut(a.KeyAt(s, i)) ==> b.Filled()
    ensures SameElsewhere(a, b, a.KeyAt(s, i))
  {
  }

  lemma EraseTotals(a: Rep, b: Rep, s: Side, i: nat)
    requires a.SortedLevels() && a.Owned() && Erased(a, b, s, i) && SameElsewhere(a, b, a.KeyAt(s, i))
    requires a.TotalsBut(a.KeyAt(s, i))
    ensures b.Totals()
  {
    var k := a.KeyAt(s, i);
    forall t: Side, j | 0 <= j < |b.Levels(t)|
      ensures b.Levels(t)[j].totalVolume == Total(EntriesAt(b.nodes, b.chains, b.KeyAt(t, j)))
    {
      ErasedAt(a, b, s, i, t, j);
      Elsewhere(a, b, k, b.KeyAt(t, j));
    }
  }

  lemma EraseSplit(a: Rep, b: Rep, s: Side, i: nat)
    requires a.SortedLevels() && Erased(a, b, s, i)
    ensures var k := a.KeyAt(s, i);
            var ls := a.Levels(s);
      && b.Levels(s) == ls[..i] + ls[i + 1..] && b.Levels(Opposed(s)) == a.Levels(Opposed(s))
      && k in a.chains && a.chains[k] == []
      && (forall j :: 0 <= j < |b.Levels(s)| ==> Key(s, b.Levels(s)[j].price) != k)
  {
  }

  lemma EraseFlat(a: Rep, b: Rep, s: Side, i: nat)
    requires a.SortedLevels() && a.Owned() && Erased(a, b, s, i) && SameElsewhere(a, b, a.KeyAt(s, i))
    requires i < |a.Levels(s)|
    ensures b.FlatOf(s) == a.FlatOf(s) && b.FlatOf(Opposed(s)) == a.FlatOf(Opposed(s))
  {
    hide EntriesAt, SameElsewhere, Rep.SortedLevels, Rep.Owned, Flat, Erased;
    var k := a.KeyAt(s, i);
    var o := Opposed(s);
    var ls := a.Levels(s);
    EraseSplit(a, b, s, i);
    FlatOthers(a, b, s, b.Levels(s), k);
    FlatOthers(a, b, o, b.Levels(o), k);
    FlatConcat(a.nodes, a.chains, s, ls[..i], ls[i + 1..]);
    FlatAt(a, s, i);
    EmptyChain(a, k);
    assert a.Above(s, i) + [] == a.Above(s, i);
  }

  lemma EmptyChain(a: Rep, k: Key)
    requires k in a.chains && a.chains[k] == []
    ensures EntriesAt(a.nodes, a.chains, k) == []
  {
  }

  /** Dropping an empty level keeps the representation and the book. */
  lemma EraseKeeps(a: Rep, b: Rep, s: Side, i: nat)
    requires a.Sound() && Erased(a, b, s, i)
    ensures b.Sound()
    ensures forall m :: a.PositiveBut(m) ==> b.PositiveBut(m)
    ensures a.FilledBut(a.KeyAt(s, i)) ==> b.Filled()
    ensures a.TotalsBut(a.KeyAt(s, i)) ==> b.Totals()
    ensures b.FlatOf(s) == a.FlatOf(s) && b.FlatOf(Opposed(s)) == a.FlatOf(Opposed(s))
  {
    hide Rep.SortedLevels, Rep.Keyed, Rep.LinkedLevels, Rep.Owned, Rep.FreeOk, Rep.Indexed,
         Rep.PositiveBut, Rep.FilledBut, Rep.Filled, Rep.TotalsBut, Rep.Totals, Rep.FlatOf, SameElsewhere;
    EraseSorted(a, b, s, i);
    EraseKeyed(a, b, s, i);
    EraseLinked(a, b, s, i);
    EraseOthers(a, b, s, i);
    EraseFlat(a, b, s, i);
    if a.TotalsBut(a.KeyAt(s, i)) {
      EraseTotals(a, b, s, i);
    }
  }

  /** An empty level at `price` appears at position `i` of side `s`. */
  ghost predicate Emplaced(a: Rep, b: Rep, s: Side, i: nat, price: Price) {
    && i <= |a.Levels(s)|
    && (forall j :: 0 <= j < i ==> Better(s, a.Levels(s)[j].price, price))
    && (forall j :: i <= j < |a.Levels(s)| ==> Better(s, price, a.Levels(s)[j].price))
    && b == a.WithLevels(s, a.Levels(s)[..i] + [Level(price, 0, NULL_INDEX, NULL_INDEX)] + a.Levels(s)[i..])
             .(chains := a.chains[Key(s, price) := []])
  }

  lemma EmplacedAt(a: Rep, b: Rep, s: Side, i: nat, price: Price, t: Side, j: nat)
    requires Emplaced(a, b, s, i, price) && j < |b.Levels(t)|
    ensures t == s && j == i ==> b.Levels(t)[j] == Level(price, 0, NULL_INDEX, NULL_INDEX)
    ensures !(t == s && j == i) ==>
              var p := if t == s && j > i then j - 1 else j;
              p < |a.Levels(t)| && b.Levels(t)[j] == a.Levels(t)[p] && b.KeyAt(t, j) != Key(s, price)
    ensures |b.Levels(s)| == |a.Levels(s)| + 1 && b.Levels(Opposed(s)) == a.Levels(Opposed(s))
  {
  }

  lemma EmplaceSorted(a: Rep, b: Rep, s: Side, i: nat, price: Price)
    requires a.SortedLevels() && Emplaced(a, b, s, i, price)
    ensures b.SortedLevels()
  {
    forall t: Side, j, x | 0 <= j < x < |b.Levels(t)|
      ensures Better(t, b.Levels(t)[j].price, b.Levels(t)[x].price)
    {
      EmplacedAt(a, b, s, i, price, t, j);
      EmplacedAt(a, b, s, i, price, t, x);
    }
  }

  lemma EmplaceFresh(a: Rep, b: Rep, s: Side, i: nat, price: Price)
    requires a.Keyed() && Emplaced(a, b, s, i, price)
    ensures Key(s, price) !in a.chains
  {
  }

  lemma EmplaceKeyed(a: Rep, b: Rep, s: Side, i: nat, price: Price)
    requires a.Keyed() && Emplaced(a, b, s, i, price)
    ensures b.Keyed()
  {
    forall t: Side, j | 0 <= j < |b.Levels(t)|
      ensures b.KeyAt(t, j) in b.chains
    {
      EmplacedAt(a, b, s, i, price, t, j);
      if !(t == s && j == i) {
        var p := if t == s && j > i then j - 1 else j;
        assert b.KeyAt(t, j) == a.KeyAt(t, p);
      }
    }
    forall l | l in b.chains
      ensures b.HasLevel(l)
    {
      EmplacedAt(a, b, s, i, price, s, i);
      if l == Key(s, price) {
        assert b.Levels(s)[i].price == price;
      } else {
        assert a.HasLevel(l);
        var p :| 0 <= p < |a.Levels(l.side)| && a.Levels(l.side)[p].price == l.price;
        var j := if l.side == s && p >= i then p + 1 else p;
        EmplacedAt(a, b, s, i, price, l.side, j);
        assert b.Levels(l.side)[j].price == l.price;
      }
    }
  }

  lemma EmplaceLinked(a: Rep, b: Rep, s: Side, i: nat, price: Price)
    requires a.Keyed() && a.LinkedLevels() && Emplaced(a, b, s, i, price)
    ensures b.LinkedLevels()
  {
    hide Linked, Emplaced, Better;
    EmplacedChains(a, b, s, i, price);
    NothingLinked(b.nodes);
    forall t: Side, j | 0 <= j < |b.Levels(t)| && b.KeyAt(t, j) in b.chains
      ensures b.Levels(t)[j].head == First(b.chains[b.KeyAt(t, j)])
      ensures b.Levels(t)[j].tail == Last(b.chains[b.KeyAt(t, j)])
    {
      EmplacedAt(a, b, s, i, price, t, j);
      if !(t == s && j == i) {
        var p := if t == s && j > i then j - 1 else j;
        assert b.KeyAt(t, j) == a.KeyAt(t, p);
      }
    }
  }

  lemma NothingLinked(nodes: Nodes)
    ensures Linked(nodes, [])
  {
  }

  lemma EmplacedChains(a: Rep, b: Rep, s: Side, i: nat, price: Price)
    requires Emplaced(a, b, s, i, price)
    ensures b.chains == a.chains[Key(s, price) := []] && b.nodes == a.nodes
  {
  }

  lemma EmplaceOthers(a: Rep, b: Rep, s: Side, i: nat, price: Price)
    requires a.Owned() && a.FreeOk() && a.Indexed() && Emplaced(a, b, s, i, price) && Key(s, price) !in a.chains
    ensures b.Owned() && b.FreeOk() && b.Indexed()
    ensures forall m :: a.PositiveBut(m) ==> b.PositiveBut(m)
    ensures a.Filled() ==> b.FilledBut(Key(s, price))
  {
  }

  lemma EmplaceIsLocal(a: Rep, b: Rep, s: Side, i: nat, price: Price)
    requires a.Owned() && Emplaced(a, b, s, i, price)
    ensures SameElsewhere(a, b, Key(s, price))
  {
  }

  lemma EmplaceTotals(a: Rep, b: Rep, s: Side, i: nat, price: Price)
    requires a.Owned() && Emplaced(a, b, s, i, price) && SameElsewhere(a, b, Key(s, price))
    requires a.Totals()
    ensures b.Totals()
  {
    forall t: Side, j | 0 <= j < |b.Levels(t)|
      ensures b.Levels(t)[j].totalVolume == Total(EntriesAt(b.nodes, b.chains, b.KeyAt(t, j)))
    {
      EmplacedAt(a, b, s, i, price, t, j);
      if !(t == s && j == i) {
        var p := if t == s && j > i then j - 1 else j;
        assert b.KeyAt(t, j) == a.KeyAt(t, p);
        Elsewhere(a, b, Key(s, price), b.KeyAt(t, j));
      }
    }
  }

  lemma EmplaceSplit(a: Rep, b: Rep, s: Side, i: nat, price: Price)
    requires Emplaced(a, b, s, i, price)
    ensures var ls := a.Levels(s);
      && i <= |ls| && ls == ls[..i] + ls[i..]
      && i < |b.Levels(s)| && b.KeyAt(s, i) == Key(s, price)
      && b.Levels(s)[..i] == ls[..i] && b.Levels(s)[i + 1..] == ls[i..]
      && b.Levels(Opposed(s)) == a.Levels(Opposed(s))
      && (forall j :: 0 <= j < |ls| ==> ls[j].price != price)
  {
  }

  lemma EmplaceFlat(a: Rep, b: Rep, s: Side, i: nat, price: Price)
    requires a.Owned() && Emplaced(a, b, s, i, price) && SameElsewhere(a, b, Key(s, price))
    ensures b.FlatOf(s) == a.FlatOf(s) && b.FlatOf(Opposed(s)) == a.FlatOf(Opposed(s))
    ensures i < |b.Levels(s)| && b.Above(s, i) + b.Below(s, i) == a.FlatOf(s)
    ensures EntriesAt(b.nodes, b.chains, Key(s, price)) == []
  {
    hide EntriesAt, SameElsewhere, Rep.Owned, Flat, Emplaced;
    var k := Key(s, price);
    var o := Opposed(s);
    var ls := a.Levels(s);
    EmplaceSplit(a, b, s, i, price);
    EmplacedChains(a, b, s, i, price);
    EmptyChain(b, k);
    FlatOthers(a, b, s, ls[..i], k);
    FlatOthers(a, b, s, ls[i..], k);
    FlatOthers(a, b, o, a.Levels(o), k);
    FlatConcat(a.nodes, a.chains, s, ls[..i], ls[i..]);
    FlatAt(b, s, i);
  }

  /** A new empty level keeps the representation and the book. */
  lemma EmplaceKeeps(a: Rep, b: Rep, s: Side, i: nat, price: Price)
    requires a.Sound() && a.Filled() && a.Totals() && Emplaced(a, b, s, i, price)
    ensures b.Sound() && b.FilledBut(Key(s, price)) && b.Totals()
    ensures forall m :: a.PositiveBut(m) ==> b.PositiveBut(m)
    ensures i < |b.Levels(s)| && b.KeyAt(s, i) == Key(s, price)
    ensures b.Above(s, i) + b.Below(s, i) == a.FlatOf(s) == b.FlatOf(s)
    ensures EntriesAt(b.nodes, b.chains, Key(s, price)) == []
    ensures b.FlatOf(Opposed(s)) == a.FlatOf(Opposed(s))
  {
    hide Rep.SortedLevels, Rep.Keyed, Rep.LinkedLevels, Rep.Owned, Rep.FreeOk, Rep.Indexed,
         Rep.PositiveBut, Rep.FilledBut, Rep.Filled, Rep.TotalsBut, Rep.Totals, Rep.FlatOf, SameElsewhere,
         Rep.Above, Rep.Below, EntriesAt;
    EmplaceFresh(a, b, s, i, price);
    EmplaceSorted(a, b, s, i, price);
    EmplaceKeyed(a, b, s, i, price);
    EmplaceLinked(a, b, s, i, price);
    EmplaceOthers(a, b, s, i, price);
    EmplaceIsLocal(a, b, s, i, price);
    EmplaceFlat(a, b, s, i, price);
    EmplaceTotals(a, b, s, i, price);
  }

  // ---------------------------------------------------------- one node a level

  /** Level `i` shrinks to its oldest order, whose volume becomes `volume`. */
  ghost predicate Collapsed(a: Rep, b: Rep, s: Side, i: nat, volume: Volume) {
    && i < |a.Levels(s)| && a.KeyAt(s, i) in a.chains && a.chains[a.KeyAt(s, i)] != []
    && InRange(a.nodes, a.chains[a.KeyAt(s, i)])
    && var k := a.KeyAt(s, i);
       var c := a.chains[k];
       && b.nodes == a.nodes[c[0] := Node(RestingOrder(a.nodes[c[0]].value.id, volume), NULL_INDEX, a.nodes[c[0]].prev)]
       && b.free == a.free + c[1..]
       && b.chains == a.chains[k := [c[0]]]
       && |b.owner| == |a.owner|
       && (forall n :: 0 <= n < |a.owner| ==> b.owner[n] == if n in c[1..] then Unowned else a.owner[n])
       && b.index == a.index
       && LevelChanged(a, b, s, i)
       && b.Levels(s)[i] == Level(k.price, volume, c[0], c[0])
  }

  /** No order behind the oldest one of level `i` is identified. */
  ghost predicate TailAnonymous(a: Rep, s: Side, i: nat) {
    && i < |a.Levels(s)| && a.KeyAt(s, i) in a.chains
    && forall j :: 0 < j < |a.chains[a.KeyAt(s, i)]| ==>
         var n := a.chains[a.KeyAt(s, i)][j];
         0 <= n < |a.nodes| && a.nodes[n].value.id == ANONYMOUS
  }

  lemma CollapseOwners(a: Rep, b: Rep, s: Side, i: nat, volume: Volume)
    requires a.Owned() && Collapsed(a, b, s, i, volume) && Distinct(a.chains[a.KeyAt(s, i)])
    ensures b.Owned()
    ensures SameElsewhere(a, b, a.KeyAt(s, i))
  {
  }

  lemma CollapseFree(a: Rep, b: Rep, s: Side, i: nat, volume: Volume)
    requires a.Owned() && a.FreeOk() && Collapsed(a, b, s, i, volume) && Distinct(a.chains[a.KeyAt(s, i)])
    ensures b.FreeOk()
  {
  }

  lemma CollapseIndexed(a: Rep, b: Rep, s: Side, i: nat, volume: Volume)
    requires a.Owned() && a.Indexed() && Collapsed(a, b, s, i, volume) && TailAnonymous(a, s, i)
    ensures b.Indexed()
  {
  }

  lemma CollapsedEntries(a: Rep, b: Rep, s: Side, i: nat, volume: Volume)
    requires Collapsed(a, b, s, i, volume)
    ensures var k := a.KeyAt(s, i);
            var es := [Entry(k.price, a.nodes[a.chains[k][0]].value.id, volume)];
      EntriesAt(b.nodes, b.chains, k) == es && Total(es) == volume
    ensures var k := a.KeyAt(s, i);
      EntriesAt(a.nodes, a.chains, k) != []
      && EntriesAt(a.nodes, a.chains, k)[0].id == a.nodes[a.chains[k][0]].value.id
  {
  }

  lemma CollapseSound(a: Rep, b: Rep, s: Side, i: nat, volume: Volume)
    requires a.Sound() && Collapsed(a, b, s, i, volume) && TailAnonymous(a, s, i)
    ensures b.Owned() && b.FreeOk() && b.Indexed() && b.Keyed() && b.LinkedLevels()
    ensures SameElsewhere(a, b, a.KeyAt(s, i))
  {
    hide Rep.SortedLevels, Rep.LinkedLevels, Rep.Keyed, Rep.Owned, Rep.FreeOk, Rep.Indexed, SameElsewhere, TailAnonymous;
    ChainAt(a, s, i);
    CollapseOwners(a, b, s, i, volume);
    CollapseFree(a, b, s, i, volume);
    CollapseIndexed(a, b, s, i, volume);
    KeysKept(a, b, s, i);
    LinksKept(a, b, s, i);
  }

  lemma CollapsePositive(a: Rep, b: Rep, s: Side, i: nat, volume: Volume)
    requires a.Owned() && a.PositiveBut(NULL_INDEX) && Collapsed(a, b, s, i, volume) && volume > 0
    ensures b.PositiveBut(NULL_INDEX)
  {
  }

  /** Collapsing a level keeps the representation ... */
  lemma CollapseKeeps(a: Rep, b: Rep, s: Side, i: nat, volume: Volume)
    requires a.Sound() && Collapsed(a, b, s, i, volume) && TailAnonymous(a, s, i)
    requires a.TotalsBut(a.KeyAt(s, i)) && a.Filled() && a.PositiveBut(NULL_INDEX) && volume > 0
    ensures b.Sound() && b.Totals() && b.Filled() && b.PositiveBut(NULL_INDEX)
  {
    hide Rep.LinkedLevels, Rep.Keyed, Rep.Owned, Rep.FreeOk, Rep.Indexed, SameElsewhere, TailAnonymous,
         Rep.TotalsBut, Rep.PositiveBut, EntriesAt, Total, Rep.SortedLevels, Rep.Totals;
    CollapseSound(a, b, s, i, volume);
    CollapsePositive(a, b, s, i, volume);
    CollapsedEntries(a, b, s, i, volume);
    OtherLevelsKept(a, b, s, i);
    TotalsFrom(b, s, i);
  }

  /** ... and leaves one order of the given volume at its price. */
  lemma CollapseSets(a: Rep, b: Rep, s: Side, i: nat, volume: Volume)
    requires a.Sound() && Collapsed(a, b, s, i, volume) && TailAnonymous(a, s, i)
    ensures var k := a.KeyAt(s, i);
            var es := EntriesAt(a.nodes, a.chains, k);
      && es != [] && |es| == |a.chains[k]|
      && b.FlatOf(s) == a.Above(s, i) + [Entry(k.price, es[0].id, volume)] + a.Below(s, i)
    ensures b.FlatOf(Opposed(s)) == a.FlatOf(Opposed(s))
  {
    hide Rep.LinkedLevels, Rep.Keyed, Rep.Owned, Rep.FreeOk, Rep.Indexed, SameElsewhere, TailAnonymous,
         Total, Rep.SortedLevels, Rep.FlatOf, Rep.Above, Rep.Below;
    CollapseSound(a, b, s, i, volume);
    CollapsedEntries(a, b, s, i, volume);
    FlatStep(a, b, s, i);
  }
}
