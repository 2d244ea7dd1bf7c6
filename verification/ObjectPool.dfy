/** A fixed-capacity pool of intrusive list nodes. Nodes are addressed by index;
    freed slots are kept on a stack and reused last-in first-out. */
module ObjectPools {
  datatype Node<T> = Node(value: T, next: int, prev: int)

  /** Marks "no neighbour". */
  const NULL_INDEX := -1

  /** `s` with `x` at `i`, where `i` may be one past the end. */
  function Put<T>(s: seq<T>, i: nat, x: T): seq<T>
    requires i <= |s|
  {
    if i == |s| then s + [x] else s[i := x]
  }

  ghost predicate Distinct(s: seq<int>) {
    forall i, j :: 0 <= i < j < |s| ==> s[i] != s[j]
  }

  ghost function Elements(s: seq<int>): set<int> {
    set x | x in s
  }

  lemma {:induction false} DistinctCount(s: seq<int>)
    requires Distinct(s)
    ensures |Elements(s)| == |s|
  {
    if s != [] {
      DistinctCount(s[1..]);
      assert Elements(s) == Elements(s[1..]) + {s[0]};
      assert s[0] !in s[1..];
    }
  }

  ghost function Indices(n: nat): (r: set<int>)
    ensures forall i :: i in r <==> 0 <= i < n
    ensures |r| == n
  {
    if n == 0 then {} else Indices(n - 1) + {n - 1}
  }

  ghost predicate FreeListOk(n: nat, free: seq<int>) {
    Distinct(free) && forall i :: 0 <= i < |free| ==> 0 <= free[i] < n
  }

  ghost function LiveSet(n: nat, free: seq<int>): set<int> {
    Indices(n) - Elements(free)
  }

  lemma LiveSetCount(n: nat, free: seq<int>)
    requires FreeListOk(n, free)
    ensures |LiveSet(n, free)| == n - |free|
  {
    DistinctCount(free);
    assert Elements(free) <= Indices(n);
  }

  lemma LiveSetReuse(n: nat, free: seq<int>)
    requires FreeListOk(n, free) && free != []
    ensures var last := |free| - 1;
      && free[last] !in LiveSet(n, free)
      && LiveSet(n, free[..last]) == LiveSet(n, free) + {free[last]}
  {
  }

  lemma LiveSetGrow(n: nat)
    ensures LiveSet(n + 1, []) == LiveSet(n, []) + {n}
  {
  }

  lemma LiveSetFree(n: nat, free: seq<int>, i: int)
    requires FreeListOk(n, free) && i in LiveSet(n, free)
    ensures FreeListOk(n, free + [i])
    ensures LiveSet(n, free + [i]) == LiveSet(n, free) - {i}
  {
  }

  class ObjectPool<T> {
    var nodes: seq<Node<T>>
    var freeList: seq<int>
    const capacity: nat

    ghost predicate Valid()
      reads this
    {
      |nodes| <= capacity && FreeListOk(|nodes|, freeList)
    }

    /** The nodes that have been allocated and not freed since. */
    ghost function Live(): set<int>
      reads this
    {
      LiveSet(|nodes|, freeList)
    }

    /** The number of live nodes. */
    function Size(): int
      reads this
    {
      |nodes| - |freeList|
    }

    lemma SizeCountsLive()
      requires Valid()
      ensures Size() == |Live()|
    {
      LiveSetCount(|nodes|, freeList);
    }

    /** Indices are 32-bit, so at most 2^31 nodes can be addressed. */
    constructor (cap: nat)
      requires cap <= 0x8000_0000
      ensures Valid() && Live() == {} && nodes == [] && freeList == [] && capacity == cap
    {
      nodes, freeList, capacity := [], [], cap;
    }

    method Allocate(value: T) returns (index: int)
      requires Valid()
      requires Size() < capacity
      modifies this
      ensures Valid()
      ensures index !in old(Live()) && Live() == old(Live()) + {index}
      ensures 0 <= index <= |old(nodes)| && nodes == Put(old(nodes), index, Node(value, NULL_INDEX, NULL_INDEX))
      ensures if old(freeList) == [] then index == |old(nodes)| && freeList == []
              else index == old(freeList[|freeList| - 1]) && freeList == old(freeList[..|freeList| - 1])
      ensures Size() == old(Size()) + 1
    {
      if freeList != [] {
        var last := |freeList| - 1;
        index := freeList[last];
        LiveSetReuse(|nodes|, freeList);
        freeList := freeList[..last];
        nodes := nodes[index := Node(value, NULL_INDEX, NULL_INDEX)];
      } else {
        LiveSetGrow(|nodes|);
        nodes := nodes + [Node(value, NULL_INDEX, NULL_INDEX)];
        index := |nodes| - 1;
      }
    }

    method Deallocate(index: int)
      requires Valid()
      requires index in Live()
      modifies this`freeList
      ensures Valid()
      ensures Live() == old(Live()) - {index}
      ensures freeList == old(freeList) + [index]
      ensures Size() == old(Size()) - 1
    {
      LiveSetFree(|nodes|, freeList, index);
      freeList := freeList + [index];
    }

    /** Write through the reference the pool hands out for a live node. */
    method Set(index: int, node: Node<T>)
      requires Valid() && 0 <= index < |nodes|
      modifies this`nodes
      ensures Valid() && Live() == old(Live())
      ensures nodes == old(nodes)[index := node]
    {
      nodes := nodes[index := node];
    }
  }
}
