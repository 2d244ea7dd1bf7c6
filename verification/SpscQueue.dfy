/** The bounded single-producer single-consumer queue, run by one thread: a ring
    over 64-bit cursors that wrap, with each role deciding from its own cursor and
    a cached copy of the other's. */
module SpscQueues {
  import opened Commons
  import opened Words
  import opened Rings

  lemma MinAtMost(a: nat, b: nat)
    ensures 0 <= Min(a, b) <= a && Min(a, b) <= b
    ensures b == 0 ==> Min(a, b) == 0
  {
  }

  datatype BlockPush = Full | ReadPastEnd | Published

  class SpscQueue<T(0)> {
    const capacity: nat
    const storage: array<T>
    // the consumer's line
    var readPosition: Word
    var readLocal: Word
    var writeCache: Word
    // the producer's line
    var writePosition: Word
    var writeLocal: Word
    var readCache: Word

    /** How many elements were ever published, and ever taken. */
    ghost var pushed: nat
    ghost var popped: nat
    /** The true counts the cached cursors stand for. */
    ghost var seenPushed: nat
    ghost var seenPopped: nat
    /** The slots that hold a constructed element. */
    ghost var live: set<nat>

    ghost predicate Valid()
      reads this, storage
    {
      && PowerOfTwo(capacity) && storage.Length == capacity > 0
      && popped <= pushed <= popped + capacity
      && popped <= seenPushed <= pushed
      && seenPopped <= popped && pushed <= seenPopped + capacity
      && readPosition == readLocal == Wrap(popped) && writeCache == Wrap(seenPushed)
      && writePosition == writeLocal == Wrap(pushed) && readCache == Wrap(seenPopped)
      && LiveWindow(live, popped, pushed, capacity)
    }

    /** The queued elements, oldest first. */
    ghost function Contents(): (r: seq<T>)
      requires Valid()
      reads this, storage
      ensures |r| == pushed - popped <= capacity
    {
      Stretch(storage[..], popped, pushed)
    }

    /** How many elements the consumer can see without another reload. */
    ghost function Visible(): (r: nat)
      requires Valid()
      reads this, storage
      ensures r <= |Contents()|
      ensures r == 0 <==> Contents() == []
    {
      CursorsAgree();
      if readLocal == writeCache then pushed - popped else seenPushed - popped
    }

    /** Equal wrapped cursors mean equal counts: full and empty stay apart. */
    lemma CursorsAgree()
      requires Valid()
      ensures readLocal == writeCache <==> popped == seenPushed
      ensures readPosition == writePosition <==> Contents() == []
    {
      PowerOfTwoFits(capacity);
      WrappedDifference(seenPushed, popped);
      WrappedDifference(pushed, popped);
    }

    /** Is the cached write cursor good for `limit` elements: exhausted and so about
        to be reloaded, up to date, or that far ahead? */
    ghost predicate SeesEnough(limit: nat)
      reads this
    {
      readLocal == writeCache || writeCache == writePosition || limit <= Wrap(writeCache - readLocal)
    }

    /** Being capped by the visible count and by the size come to the same exactly then. */
    lemma VisibleSuffices(limit: nat)
      requires Valid()
      ensures Min(limit, Visible()) == Min(limit, |Contents()|) <==> SeesEnough(limit)
    {
      hide LiveWindow, Wrap, PowerOfTwo, Stretch;
      PowerOfTwoFits(capacity);
      CursorsAgree();
      WrappedDifference(seenPushed, popped);
      WrappedDifference(pushed, seenPushed);
      SmallWrap(0);
    }

    constructor (n: nat)
      requires PowerOfTwo(n)
      ensures Valid() && Contents() == [] && capacity == n && fresh(storage)
      ensures popped == pushed == seenPushed == 0
    {
      PowerOfTwoFits(n);
      capacity := n;
      storage := new T[n];
      readPosition, readLocal, writeCache := 0, 0, 0;
      writePosition, writeLocal, readCache := 0, 0, 0;
      pushed, popped, seenPushed, seenPopped := 0, 0, 0, 0;
      live := {};
    }

    /** Mask a cursor to its physical slot. */
    function CalculateIndex(pos: Word): nat {
      if capacity == 0 then 0 else BitAnd(pos, capacity - 1)
    }

    lemma IndexIsSlot(count: nat)
      requires PowerOfTwo(capacity)
      ensures capacity > 0 && CalculateIndex(Wrap(count)) == Slot(count, capacity) < capacity
    {
      WrappedSlot(count, capacity);
    }

    // ------------------------------------------------------- element lifetimes

    /** Begin an element's life in a slot that holds none. */
    method ConstructAt(slot: nat, value: T)
      requires slot < storage.Length && slot !in live
      modifies storage, this`live
      ensures storage[..] == old(storage[..])[slot := value] && live == old(live) + {slot}
    {
      storage[slot] := value;
      live := live + {slot};
    }

    /** End the life of the element in a slot that holds one. */
    method DestroyAt(slot: nat)
      requires slot < storage.Length && slot in live
      modifies this`live
      ensures live == old(live) - {slot}
    {
      live := live - {slot};
    }

    // ---------------------------------------------------------------- producer

    /** Are `count` slots free, reloading the read cursor only if the cached one
        says no? With no consumer step under way the answer is exact. */
    method HasRoom(count: Word) returns (room: bool)
      requires Valid()
      modifies this`readCache, this`seenPopped
      ensures Valid() && Contents() == old(Contents())
      ensures room <==> count <= capacity - |Contents()|
      ensures room ==> pushed + count <= seenPopped + capacity
    {
      hide LiveWindow, Wrap, PowerOfTwo, Stretch;
      PowerOfTwoFits(capacity);
      WrappedFree(capacity, pushed, seenPopped);
      WrappedFree(capacity, pushed, popped);
      if Wrap(capacity - Wrap(writeLocal - readCache)) < count {
        readCache, seenPopped := readPosition, popped;
        return Wrap(capacity - Wrap(writeLocal - readCache)) >= count;
      }
      return true;
    }

    /** `count` more elements are there, to both roles. */
    method PublishWrite(newWrite: Word, ghost count: nat)
      requires newWrite == Wrap(pushed + count)
      modifies this`writeLocal, this`writePosition, this`pushed
      ensures writeLocal == writePosition == newWrite && pushed == old(pushed) + count
    {
      writeLocal := newWrite;
      writePosition := newWrite;
      pushed := pushed + count;
    }

    /** Enqueue one element; on a full queue change nothing. */
    method TryEmplace(value: T) returns (ok: bool)
      requires Valid()
      modifies this, storage
      ensures Valid()
      ensures ok <==> |old(Contents())| < capacity
      ensures Contents() == if ok then old(Contents()) + [value] else old(Contents())
      ensures popped == old(popped) && seenPushed == old(seenPushed)
    {
      hide LiveWindow, BitAnd, Wrap, PowerOfTwo, Slot, Stretch, CalculateIndex;
      var oldWrite: nat := writeLocal;
      ok := HasRoom(1);
      if !ok {
        return;
      }
      IndexIsSlot(pushed);
      WindowGrows(live, popped, pushed, capacity);
      StretchGrows(storage[..], popped, pushed, value);
      ConstructAt(CalculateIndex(oldWrite), value);
      WrappedSum(pushed, 1);
      PublishWrite(Wrap(oldWrite + 1), 1);
    }

    /** Enqueue a whole range or nothing, element by element. */
    method TryEmplaceRange(r: seq<T>) returns (ok: bool)
      requires Valid() && |r| < WORD
      modifies this, storage
      ensures Valid()
      ensures ok <==> |r| <= capacity - |old(Contents())|
      ensures Contents() == if ok then old(Contents()) + r else old(Contents())
      ensures popped == old(popped)
    {
      hide LiveWindow, BitAnd, Wrap, PowerOfTwo, Slot, Stretch, CalculateIndex;
      var oldWrite: nat := writeLocal;
      var count: nat := |r|;
      ok := HasRoom(count);
      if !ok {
        return;
      }
      var pos := oldWrite;
      for i := 0 to |r|
        invariant unchanged(this`pushed, this`popped, this`readPosition, this`readLocal, this`writeCache,
                            this`writePosition, this`writeLocal, this`seenPushed)
        invariant pos == Wrap(pushed + i)
        invariant LiveWindow(live, popped, pushed + i, capacity)
        invariant Stretch(storage[..], popped, pushed + i) == old(Contents()) + r[..i]
        invariant seenPopped <= popped && pushed + |r| <= seenPopped + capacity && readCache == Wrap(seenPopped)
      {
        IndexIsSlot(pushed + i);
        WindowGrows(live, popped, pushed + i, capacity);
        StretchGrows(storage[..], popped, pushed + i, r[i]);
        ConstructAt(CalculateIndex(pos), r[i]);
        WrappedSum(pushed + i, 1);
        pos := Wrap(pos + 1);
        assert r[..i + 1] == r[..i] + [r[i]];
      }
      assert r[..|r|] == r;
      WrappedSum(pushed, |r|);
      PublishWrite(Wrap(oldWrite + |r|), |r|);
    }

    /** The same for trivially copyable elements as the code has it: two block copies,
        the first of them reading from a block's length into the range. Where it would
        read past the end of the range the model stops. The range is enqueued exactly
        when it fits and starts with its first block twice over. */
    method TryEmplaceBlocks(r: seq<T>) returns (outcome: BlockPush)
      requires Valid() && |r| < WORD
      modifies this, storage
      ensures Valid() && popped == old(popped)
      ensures outcome == Full <==> |r| > capacity - |old(Contents())|
      ensures outcome != Published ==> Contents() == old(Contents())
      ensures outcome != Full ==>
                var first := FirstBlock(capacity, Slot(old(pushed), capacity), |r|);
                && (outcome == Published <==> 2 * first <= |r|)
                && (outcome == Published ==> Contents() == old(Contents()) + (r[first..2 * first] + r[first..]))
                && (outcome == Published && Contents() == old(Contents()) + r
                    <==> 2 * first <= |r| && r[..first] == r[first..2 * first])
    {
      hide LiveWindow, BitAnd, Wrap, PowerOfTwo, Slot, Stretch, CalculateIndex, FirstBlock;
      var oldWrite: nat := writeLocal;
      var room := HasRoom(|r|);
      if !room {
        return Full;
      }
      IndexIsSlot(pushed);
      var at := CalculateIndex(oldWrite);
      var first := FirstBlock(capacity, at, |r|);
      if 2 * first > |r| {
        return ReadPastEnd;
      }
      CopyMisplaced(r, at, first);
      SameAppended(old(Contents()), r, first);
      WindowFills(live, popped, pushed, |r|, capacity);
      live := Occupied(live, pushed, |r|, capacity);
      WrappedSum(pushed, |r|);
      PublishWrite(Wrap(oldWrite + |r|), |r|);
      return Published;
    }

    /** The two block copies, both reading from the element numbered `first`. */
    method CopyMisplaced(r: seq<T>, at: nat, first: nat)
      requires 0 < storage.Length == capacity && popped <= pushed && pushed + |r| <= popped + capacity
      requires at == Slot(pushed, capacity) && first == FirstBlock(capacity, at, |r|) && 2 * first <= |r|
      modifies storage
      ensures Stretch(storage[..], popped, pushed + |r|)
           == old(Stretch(storage[..], popped, pushed)) + (r[first..2 * first] + r[first..])
    {
      hide Slot, Stretch;
      ghost var ring := storage[..];
      forall i | 0 <= i < first {
        storage[at + i] := r[first + i];
      }
      if first < |r| {
        forall i | 0 <= i < |r| - first {
          storage[i] := r[first + i];
        }
      }
      BlocksAppend(ring, popped, pushed, r[first..2 * first], r[first..], storage[..]);
    }

    // ---------------------------------------------------------------- consumer

    /** How many elements can be taken, reloading the write cursor only if the
        cached one shows none. */
    method Readable() returns (count: Word)
      requires Valid()
      modifies this`writeCache, this`seenPushed
      ensures Valid() && Contents() == old(Contents())
      ensures count == old(Visible()) && popped + count == seenPushed
    {
      hide LiveWindow, Wrap, PowerOfTwo, Stretch;
      CursorsAgree();
      PowerOfTwoFits(capacity);
      if readLocal == writeCache {
        writeCache, seenPushed := writePosition, pushed;
      }
      WrappedDifference(seenPushed, popped);
      return Wrap(writeCache - readLocal);
    }

    /** `count` more elements are gone, to both roles. */
    method PublishRead(newRead: Word, ghost count: nat)
      requires newRead == Wrap(popped + count)
      modifies this`readLocal, this`readPosition, this`popped
      ensures readLocal == readPosition == newRead && popped == old(popped) + count
    {
      readLocal := newRead;
      readPosition := newRead;
      popped := popped + count;
    }

    /** Take the front element, if there is one. */
    method TryDequeue() returns (r: Option<T>)
      requires Valid()
      modifies this
      ensures Valid()
      ensures r == if old(Contents()) == [] then None else Some(old(Contents())[0])
      ensures Contents() == if old(Contents()) == [] then [] else old(Contents())[1..]
      ensures pushed == old(pushed) && seenPushed == old(popped + Visible())
    {
      hide LiveWindow, BitAnd, Wrap, PowerOfTwo, Slot, Stretch, CalculateIndex;
      var oldRead: nat := readLocal;
      var readable := Readable();
      if readable == 0 {
        return None;
      }
      IndexIsSlot(popped);
      WindowShrinks(live, popped, pushed, capacity);
      StretchDrops(storage[..], popped, popped + 1, pushed);
      var cell := CalculateIndex(oldRead);
      r := Some(storage[cell]);
      DestroyAt(cell);
      WrappedSum(popped, 1);
      PublishRead(Wrap(oldRead + 1), 1);
    }

    /** Pass the next `count` elements to a callback in order, destroying each one
        after it, then publish the read cursor. */
    method TakeEach(count: nat) returns (consumed: seq<T>)
      requires Valid() && popped + count <= seenPushed
      modifies this
      ensures Valid() && pushed == old(pushed) && popped == old(popped) + count
      ensures writeCache == old(writeCache) && seenPushed == old(seenPushed)
      ensures consumed == old(Contents())[..count] && Contents() == old(Contents())[count..]
    {
      hide LiveWindow, BitAnd, Wrap, PowerOfTwo, Slot, Stretch, CalculateIndex;
      var pos: nat := readLocal;
      consumed := [];
      ghost var all := Contents();
      for i := 0 to count
        invariant unchanged(this`popped, this`pushed, this`seenPushed, this`seenPopped, this`readLocal,
                            this`readPosition, this`writeLocal, this`writePosition, this`readCache, this`writeCache)
        invariant pos == Wrap(popped + i)
        invariant LiveWindow(live, popped + i, pushed, capacity)
        invariant consumed == all[..i]
      {
        IndexIsSlot(popped + i);
        WindowShrinks(live, popped + i, pushed, capacity);
        var cell := CalculateIndex(pos);
        consumed := consumed + [storage[cell]];
        assert all[..i + 1] == all[..i] + [all[i]];
        DestroyAt(cell);
        WrappedSum(popped + i, 1);
        pos := Wrap(pos + 1);
      }
      StretchDrops(storage[..], popped, popped + count, pushed);
      PublishRead(pos, count);
    }

    /** Consume up to `limit` elements in place. Of a queue with something in it,
        something is taken unless the limit is 0, but what was published after the
        cached cursor was loaded may be left. */
    method ConsumeUpTo(limit: nat) returns (count: nat, consumed: seq<T>)
      requires Valid()
      modifies this
      ensures Valid() && pushed == old(pushed)
      ensures count == Min(limit, old(Visible()))
      ensures count == Min(limit, |old(Contents())|) <==> old(SeesEnough(limit))
      ensures consumed == old(Contents())[..count] && Contents() == old(Contents())[count..]
    {
      hide LiveWindow, Wrap, PowerOfTwo, Stretch, SeesEnough;
      VisibleSuffices(limit);
      var available := Readable();
      if available == 0 {
        return 0, [];
      }
      count := Min(limit, available);
      consumed := TakeEach(count);
    }

    /** Consume everything visible. That is everything only when the cached write
        cursor was exhausted or up to date; when it was stale, a suffix is left. */
    method ConsumeAll() returns (count: nat, consumed: seq<T>)
      requires Valid()
      modifies this
      ensures Valid() && pushed == old(pushed)
      ensures count == old(Visible()) && readLocal == writeCache
      ensures consumed == old(Contents())[..count] && Contents() == old(Contents())[count..]
      ensures Contents() == [] <==> old(readLocal == writeCache || writeCache == writePosition)
    {
      hide LiveWindow, Wrap, PowerOfTwo, Stretch;
      PowerOfTwoFits(capacity);
      WrappedDifference(pushed, seenPushed);
      CursorsAgree();
      SmallWrap(0);
      count := Readable();
      consumed := TakeEach(count);
      CursorsAgree();
    }

    /** Dequeue into a buffer, element by element, as many as are visible and fit. */
    method TryDequeueRange(out: array<T>) returns (count: nat)
      requires Valid() && out != storage
      modifies this, out
      ensures Valid() && pushed == old(pushed)
      ensures count == Min(out.Length, old(Visible()))
      ensures count == Min(out.Length, |old(Contents())|) <==> old(SeesEnough(out.Length))
      ensures out[..] == old(Contents())[..count] + old(out[..])[count..]
      ensures Contents() == old(Contents())[count..]
    {
      hide LiveWindow, BitAnd, Wrap, PowerOfTwo, Slot, Stretch, CalculateIndex, Min, SeesEnough;
      VisibleSuffices(out.Length);
      var oldRead: nat := readLocal;
      var available := Readable();
      ghost var all := Contents();
      if available == 0 {
        MinAtMost(out.Length, available);
        assert out[..] == all[..0] + out[..][0..];
        return 0;
      }
      MinAtMost(out.Length, available);
      count := Min(out.Length, available);
      label Start:
      for i := 0 to count
        invariant unchanged@Start(this`popped, this`pushed, this`seenPushed, this`seenPopped, this`readLocal,
                                  this`readPosition, this`writeLocal, this`writePosition, this`readCache,
                                  this`writeCache)
        invariant LiveWindow(live, popped + i, pushed, capacity)
        invariant unchanged(storage)
        invariant forall x :: 0 <= x < out.Length ==> out[x] == if x < i then all[x] else old(out[x])
      {
        IndexIsSlot(popped + i);
        WindowShrinks(live, popped + i, pushed, capacity);
        WrappedSum(popped, i);
        var cell := CalculateIndex(Wrap(oldRead + i));
        out[i] := storage[cell];
        DestroyAt(cell);
      }
      assert out[..] == all[..count] + old(out[..])[count..];
      TakeCount(oldRead, count);
    }

    /** Publish that the `count` front elements, already destroyed, are gone. */
    method TakeCount(oldRead: nat, count: nat)
      requires popped + count <= seenPushed <= pushed <= popped + capacity
      requires PowerOfTwo(capacity) && storage.Length == capacity > 0
      requires seenPopped <= popped && pushed <= seenPopped + capacity
      requires readPosition == readLocal == Wrap(popped) == oldRead && writeCache == Wrap(seenPushed)
      requires writePosition == writeLocal == Wrap(pushed) && readCache == Wrap(seenPopped)
      requires LiveWindow(live, popped + count, pushed, capacity)
      modifies this`readLocal, this`readPosition, this`popped
      ensures Valid() && Contents() == old(Stretch(storage[..], popped, pushed))[count..]
      ensures popped == old(popped) + count
    {
      hide LiveWindow, Wrap, PowerOfTwo, Slot, Stretch;
      WrappedSum(popped, count);
      StretchDrops(storage[..], popped, popped + count, pushed);
      PublishRead(Wrap(oldRead + count), count);
    }

    /** The same for trivially copyable elements: two block copies, one on either
        side of the wrap, and nothing to destroy. */
    method TryDequeueBlocks(out: array<T>) returns (count: nat)
      requires Valid() && out != storage
      modifies this, out
      ensures Valid() && pushed == old(pushed)
      ensures count == Min(out.Length, old(Visible()))
      ensures count == Min(out.Length, |old(Contents())|) <==> old(SeesEnough(out.Length))
      ensures out[..] == old(Contents())[..count] + old(out[..])[count..]
      ensures Contents() == old(Contents())[count..]
    {
      hide LiveWindow, BitAnd, Wrap, PowerOfTwo, Slot, Stretch, CalculateIndex, Min, SeesEnough;
      VisibleSuffices(out.Length);
      var oldRead: nat := readLocal;
      var available := Readable();
      ghost var all := Contents();
      if available == 0 {
        MinAtMost(out.Length, available);
        assert out[..] == all[..0] + out[..][0..];
        return 0;
      }
      MinAtMost(out.Length, available);
      count := Min(out.Length, available);
      CopyBlocks(out, CalculateIndex(oldRead), count);
      WindowVacates(live, popped, pushed, count, capacity);
      live := Vacated(live, popped, count, capacity);
      TakeCount(oldRead, count);
    }

    /** The two block copies of a batch dequeue. */
    method CopyBlocks(out: array<T>, readIndex: nat, count: nat)
      requires Valid() && out != storage && count <= out.Length && count <= |Contents()|
      requires readIndex == CalculateIndex(Wrap(popped))
      modifies out
      ensures out[..] == Contents()[..count] + old(out[..])[count..]
    {
      hide LiveWindow, BitAnd, Wrap, PowerOfTwo, Slot, Stretch, CalculateIndex;
      IndexIsSlot(popped);
      var first := Min(count, capacity - readIndex);
      StretchDrops(storage[..], popped, popped + count, pushed);
      StretchBlocks(storage[..], popped, popped + count, readIndex, first);
      forall i | 0 <= i < first {
        out[i] := storage[readIndex + i];
      }
      if first != count {
        forall i | first <= i < count {
          out[i] := storage[i - first];
        }
      }
    }

    /** Everything queued is destroyed, slot by slot; no cursor moves. */
    method DestroyRange(from: Word, to: Word)
      requires Valid() && from == readLocal && to == writePosition
      modifies this`live
      ensures LiveWindow(live, pushed, pushed, capacity)
    {
      hide LiveWindow, BitAnd, Wrap, PowerOfTwo, Slot, Stretch, CalculateIndex;
      PowerOfTwoFits(capacity);
      ghost var at := popped;
      var pos: nat := from;
      WrappedDifference(pushed, at);
      while pos != to
        invariant popped <= at <= pushed && pos == Wrap(at)
        invariant LiveWindow(live, at, pushed, capacity)
        decreases pushed - at
      {
        IndexIsSlot(at);
        WindowShrinks(live, at, pushed, capacity);
        DestroyAt(CalculateIndex(pos));
        WrappedSum(at, 1);
        pos := Wrap(pos + 1);
        at := at + 1;
      }
      WrappedDifference(pushed, at);
      SmallWrap(0);
    }

    /** Destroy what is queued and catch up with the write cursor. */
    method Clear()
      requires Valid()
      modifies this
      ensures Valid() && Contents() == [] && pushed == old(pushed)
      ensures forall slot: nat :: slot < capacity ==> slot !in live
    {
      hide LiveWindow, Wrap, PowerOfTwo, Stretch;
      var writeEnd := writePosition;
      DestroyRange(readLocal, writeEnd);
      writeCache, seenPushed := writeEnd, pushed;
      PublishRead(writeEnd, pushed - popped);
      WindowEmpty(live, pushed, capacity);
    }

    /** The destructor's effect: no element outlives the queue. */
    method Destroy()
      requires Valid()
      modifies this
      ensures forall slot: nat :: slot < capacity ==> slot !in live
    {
      hide LiveWindow, Wrap, PowerOfTwo, Stretch;
      DestroyRange(readPosition, writePosition);
      WindowEmpty(live, pushed, capacity);
    }

    // --------------------------------------------------------------- observers

    /** The number of queued elements, computed from two loads. */
    method Size() returns (size: Word)
      requires Valid()
      ensures size == |Contents()|
    {
      PowerOfTwoFits(capacity);
      WrappedDifference(pushed, popped);
      var write: int := writePosition;
      var read: int := readPosition;
      return Wrap(write - read);
    }
  }

  /** Whatever the caches hold, consuming everything twice empties the queue and
      hands over all of it in order. */
  method ConsumeTwice<T(0)>(queue: SpscQueue<T>) returns (consumed: seq<T>)
    requires queue.Valid()
    modifies queue
    ensures queue.Valid() && queue.Contents() == []
    ensures consumed == old(queue.Contents())
  {
    hide LiveWindow, Wrap, PowerOfTwo, Stretch;
    ghost var all := queue.Contents();
    var n, first := queue.ConsumeAll();
    var m, second := queue.ConsumeAll();
    assert all == all[..n] + all[n..];
    assert all[n..][..m] == all[n..];
    return first + second;
  }

  /** Dequeuing `n` elements one at a time takes what one batch of `n` takes. */
  method DequeueSingly<T(0)>(queue: SpscQueue<T>, n: nat) returns (taken: seq<T>)
    requires queue.Valid() && n <= |queue.Contents()|
    modifies queue
    ensures queue.Valid()
    ensures taken == old(queue.Contents())[..n] && queue.Contents() == old(queue.Contents())[n..]
  {
    hide LiveWindow, Wrap, PowerOfTwo, Stretch;
    ghost var all := queue.Contents();
    taken := [];
    for i := 0 to n
      invariant queue.Valid()
      invariant taken == all[..i] && queue.Contents() == all[i..]
    {
      var front := queue.TryDequeue();
      taken := taken + [front.value];
    }
  }

  /** Two elements queued, of which the cached write cursor shows one: the third was
      published after the cursor was last loaded. */
  method StaleQueue() returns (queue: SpscQueue<int>)
    ensures fresh(queue) && fresh(queue.storage) && queue.Valid()
    ensures queue.Contents() == [2, 3] && queue.Visible() == 1
  {
    hide LiveWindow, Wrap, Stretch;
    assert Pow2(2) == 4;
    queue := new SpscQueue<int>(4);
    var ok := queue.TryEmplace(1);
    ok := queue.TryEmplace(2);
    var first := queue.TryDequeue();
    ok := queue.TryEmplace(3);
    queue.CursorsAgree();
  }

  /** One call can leave elements behind. */
  method ConsumeAllLeavesOne() returns (left: Word)
    ensures left == 1
  {
    hide LiveWindow, Wrap, Stretch, PowerOfTwo;
    var queue := StaleQueue();
    var n, consumed := queue.ConsumeAll();
    left := queue.Size();
  }

  /** Asked for two of two elements, one call can take one. */
  method ConsumeUpToTakesLess() returns (size: Word, count: nat)
    ensures size == 2 && count == 1
  {
    hide LiveWindow, Wrap, Stretch, PowerOfTwo;
    var queue := StaleQueue();
    size := queue.Size();
    var consumed;
    count, consumed := queue.ConsumeUpTo(2);
  }

  /** So can a dequeue into a buffer with room for both, element by element ... */
  method DequeueRangeTakesLess() returns (size: Word, count: nat)
    ensures size == 2 && count == 1
  {
    hide LiveWindow, Wrap, Stretch, PowerOfTwo;
    var queue := StaleQueue();
    var out := new int[2];
    size := queue.Size();
    count := queue.TryDequeueRange(out);
  }

  /** ... or in blocks. */
  method DequeueBlocksTakesLess() returns (size: Word, count: nat)
    ensures size == 2 && count == 1
  {
    hide LiveWindow, Wrap, Stretch, PowerOfTwo;
    var queue := StaleQueue();
    var out := new int[2];
    size := queue.Size();
    count := queue.TryDequeueBlocks(out);
  }

  // ---------------------------------------------- block copies into the ring

  /** What enqueueing `r` at slot `at` has to leave in the ring. */
  ghost predicate Enqueued<T>(ring: seq<T>, at: nat, r: seq<T>, result: seq<T>) {
    && at < |ring| == |result| && |r| <= |ring|
    && (forall i :: 0 <= i < |r| ==> result[Slot(at + i, |ring|)] == r[i])
    && forall x :: 0 <= x < |ring| && !(at <= x < at + |r|) && !(at <= x + |ring| < at + |r|) ==> result[x] == ring[x]
  }

  /** How much of a range of `count` goes in before the ring's end. */
  function FirstBlock(n: nat, at: nat, count: nat): (first: nat)
    requires at < n && count <= n
    ensures first <= count && at + first <= n
    ensures first < count ==> at + first == n && count - first <= at
    ensures count > 0 ==> first > 0
  {
    Min(count, n - at)
  }

  /** The trivially copyable branch of the range push with its first block read
      from the element numbered `start`; `None` when a block copy would read past
      the end of the range. The code reads from the length of the first block. */
  function EmplaceBlocks<T>(ring: seq<T>, at: nat, r: seq<T>, start: nat): Option<seq<T>>
    requires at < |ring| && |r| <= |ring|
  {
    var first := FirstBlock(|ring|, at, |r|);
    if start + first > |r| then None
    else
      var once := Write(ring, at, r[start..start + first]);
      Some(if first < |r| then Write(once, 0, r[first..]) else once)
  }

  /** `result` is `ring` with `front` at `at` and `back` at its start. */
  ghost predicate TwoBlocks<T>(ring: seq<T>, at: nat, front: seq<T>, back: seq<T>, result: seq<T>) {
    && |result| == |ring|
    && forall x :: 0 <= x < |ring| ==>
         result[x] == if at <= x < at + |front| then front[x - at] else if x < |back| then back[x] else ring[x]
  }

  lemma BlocksWritten<T>(ring: seq<T>, at: nat, r: seq<T>, start: nat)
    requires at < |ring| && |r| <= |ring| && start + FirstBlock(|ring|, at, |r|) <= |r|
    ensures var first := FirstBlock(|ring|, at, |r|);
            var e := EmplaceBlocks(ring, at, r, start);
      e.Some? && TwoBlocks(ring, at, r[start..start + first], r[first..], e.value)
  {
    hide FirstBlock, TwoBlocks, Write;
    var first := FirstBlock(|ring|, at, |r|);
    WriteTwice(ring, at, r[start..start + first], r[first..]);
  }

  lemma WriteTwice<T>(ring: seq<T>, at: nat, front: seq<T>, back: seq<T>)
    requires at + |front| <= |ring| && |back| <= at
    ensures TwoBlocks(ring, at, front, back, Write(Write(ring, at, front), 0, back))
    ensures back == [] ==> TwoBlocks(ring, at, front, back, Write(ring, at, front))
  {
    hide Write;
  }

  lemma SlotInBlock(n: nat, at: nat, count: nat, i: nat)
    requires at < n && i < count <= n
    ensures Slot(at + i, n) == if i < FirstBlock(n, at, count) then at + i else i - FirstBlock(n, at, count)
  {
    hide Slot;
    SmallSlot(at, n);
    SlotRun(at, i, n);
  }

  lemma SmallSlot(at: nat, n: nat)
    requires at < n
    ensures Slot(at, n) == at
  {
  }

  lemma EnqueuedIsTwoBlocks<T>(ring: seq<T>, at: nat, r: seq<T>, result: seq<T>)
    requires Enqueued(ring, at, r, result)
    ensures var first := FirstBlock(|ring|, at, |r|); TwoBlocks(ring, at, r[..first], r[first..], result)
  {
    hide Slot, FirstBlock;
    var first := FirstBlock(|ring|, at, |r|);
    var front, back := r[..first], r[first..];
    forall x | 0 <= x < |ring|
      ensures result[x] == if at <= x < at + |front| then front[x - at] else if x < |back| then back[x] else ring[x]
    {
      if at <= x < at + first {
        SlotInBlock(|ring|, at, |r|, x - at);
      } else if x < |r| - first {
        SlotInBlock(|ring|, at, |r|, first + x);
      }
    }
  }

  lemma TwoBlocksEnqueue<T>(ring: seq<T>, at: nat, r: seq<T>, result: seq<T>)
    requires at < |ring| && |r| <= |ring|
    requires var first := FirstBlock(|ring|, at, |r|); TwoBlocks(ring, at, r[..first], r[first..], result)
    ensures Enqueued(ring, at, r, result)
  {
    hide Slot, FirstBlock;
    forall i | 0 <= i < |r|
      ensures result[Slot(at + i, |ring|)] == r[i]
    {
      SlotInBlock(|ring|, at, |r|, i);
    }
  }

  /** Two blocks copied in behind the live elements are appended to them. */
  lemma BlocksAppend<T>(ring: seq<T>, lo: nat, hi: nat, front: seq<T>, back: seq<T>, result: seq<T>)
    requires |ring| > 0 && lo <= hi && hi + (|front| + |back|) <= lo + |ring|
    requires |front| == FirstBlock(|ring|, Slot(hi, |ring|), |front| + |back|)
    requires |result| == |ring| && TwoBlocks(ring, Slot(hi, |ring|), front, back, result)
    ensures Stretch(result, lo, hi + (|front| + |back|)) == Stretch(ring, lo, hi) + (front + back)
  {
    hide Slot, Stretch, FirstBlock, TwoBlocks;
    var n, at, r := |ring|, Slot(hi, |ring|), front + back;
    assert r[..|front|] == front && r[|front|..] == back;
    TwoBlocksEnqueue(ring, at, r, result);
    StretchDrops(result, lo, hi, hi + |r|);
    forall i: nat | i < |r|
      ensures result[Slot(hi + i, n)] == r[i]
    {
      SameSlot(hi, i, n);
    }
    assert Stretch(result, hi, hi + |r|) == r;
    forall j: nat | hi + |r| <= j < hi + n
      ensures result[Slot(j, n)] == ring[Slot(j, n)]
    {
      SlotRun(hi, j - hi, n);
    }
    StretchKept(ring, result, lo, hi, hi, |r|);
  }

  lemma SameSlot(hi: nat, i: nat, n: nat)
    requires n > 0 && i < n
    ensures Slot(hi + i, n) == Slot(Slot(hi, n) + i, n)
  {
    hide Slot;
    SlotRun(hi, i, n);
    SmallSlot(Slot(hi, n), n);
    SlotRun(Slot(hi, n), i, n);
  }

  /** Appending what the branch copies appends the range exactly when its first block
      is there twice. */
  lemma SameAppended<T>(xs: seq<T>, r: seq<T>, first: nat)
    requires 2 * first <= |r|
    ensures |r[first..2 * first] + r[first..]| == |r|
    ensures xs + (r[first..2 * first] + r[first..]) == xs + r <==> r[..first] == r[first..2 * first]
  {
    var put := r[first..2 * first] + r[first..];
    assert (xs + put)[|xs|..] == put && (xs + r)[|xs|..] == r;
    assert put[..first] == r[first..2 * first];
    assert r == r[..first] + r[first..];
  }

  lemma FrontDetermined<T>(ring: seq<T>, at: nat, f: seq<T>, g: seq<T>, back: seq<T>, result: seq<T>)
    requires |f| == |g| && at + |f| <= |ring|
    requires TwoBlocks(ring, at, f, back, result) && TwoBlocks(ring, at, g, back, result)
    ensures f == g
  {
    forall i | 0 <= i < |f|
      ensures f[i] == g[i]
    {
      assert result[at + i] == f[i];
    }
  }

  /** Wherever its first block is read from, the branch enqueues a range exactly
      when it finds there what the range starts with. */
  lemma BlocksFrom<T>(ring: seq<T>, at: nat, r: seq<T>, start: nat)
    requires at < |ring| && |r| <= |ring|
    ensures var first := FirstBlock(|ring|, at, |r|);
            var e := EmplaceBlocks(ring, at, r, start);
      (e.Some? && Enqueued(ring, at, r, e.value))
      <==> (start + first <= |r| && r[start..start + first] == r[..first])
  {
    hide Enqueued, FirstBlock, TwoBlocks, Write;
    var first := FirstBlock(|ring|, at, |r|);
    if start + first <= |r| {
      BlocksWritten(ring, at, r, start);
      var result := EmplaceBlocks(ring, at, r, start).value;
      if Enqueued(ring, at, r, result) {
        EnqueuedIsTwoBlocks(ring, at, r, result);
        FrontDetermined(ring, at, r[start..start + first], r[..first], r[first..], result);
      } else if r[start..start + first] == r[..first] {
        TwoBlocksEnqueue(ring, at, r, result);
      }
    }
  }

  /** Read from the start of the range, the two blocks enqueue it. */
  lemma BlocksFromStart<T>(ring: seq<T>, at: nat, r: seq<T>)
    requires at < |ring| && |r| <= |ring|
    ensures var e := EmplaceBlocks(ring, at, r, 0); e.Some? && Enqueued(ring, at, r, e.value)
  {
    hide EmplaceBlocks, Enqueued, FirstBlock;
    BlocksFrom(ring, at, r, 0);
  }

  /** As the code has it, the first block starts a block too far into the range.
      A range of one element is read past its end ... */
  lemma BlocksAsWrittenReadPastEnd()
    ensures EmplaceBlocks([0, 0, 0, 0], 0, [7], FirstBlock(4, 0, 1)) == None
  {
  }

  /** ... and in general a range is enqueued exactly when it starts with its first
      block twice over, whatever the ring held. */
  lemma BlocksAsWritten<T>(ring: seq<T>, at: nat, r: seq<T>)
    requires at < |ring| && |r| <= |ring|
    ensures var first := FirstBlock(|ring|, at, |r|);
            var e := EmplaceBlocks(ring, at, r, first);
      (e.Some? && Enqueued(ring, at, r, e.value)) <==> (2 * first <= |r| && r[..first] == r[first..2 * first])
  {
    hide EmplaceBlocks, Enqueued, FirstBlock;
    BlocksFrom(ring, at, r, FirstBlock(|ring|, at, |r|));
  }

  /** So no length is safe for every range but 0. */
  lemma BlocksSafeLength(ring: seq<int>, at: nat, count: nat)
    requires at < |ring| && count <= |ring|
    ensures (forall r: seq<int> :: |r| == count ==>
               var e := EmplaceBlocks(ring, at, r, FirstBlock(|ring|, at, count));
               e.Some? && Enqueued(ring, at, r, e.value))
        <==> count == 0
  {
    hide EmplaceBlocks, Enqueued, FirstBlock;
    var first := FirstBlock(|ring|, at, count);
    if count > 0 {
      var r := seq(count, i => i);
      BlocksAsWritten(ring, at, r);
      assert 2 * first <= |r| ==> r[..first][0] != r[first..2 * first][0];
    } else {
      BlocksAsWritten(ring, at, []);
    }
  }
}
