/** The length-prefixed byte ring: framed messages copied in and out of a power of
    two of bytes, wrapping at most once per copy, over free-running 64-bit cursors. */
module FastQueues {
  import opened Commons
  import opened Words
  import opened Rings
  import opened Framing

  /** Double 1 until it covers `v`. */
  method RoundUpPow2(v: nat) returns (p: nat)
    requires v <= Pow2(63)
    ensures PowerOfTwo(p) && v <= p
    ensures forall k: nat :: v <= Pow2(k) ==> p <= Pow2(k)
  {
    p := 1;
    ghost var e: nat := 0;
    assert Pow2(0) == 1;
    while p < v
      invariant e <= 63 && p == Pow2(e)
      invariant forall k: nat :: k < e ==> Pow2(k) < v
      decreases 63 - e
    {
      p := 2 * p;
      e := e + 1;
    }
    forall k: nat | v <= Pow2(k)
      ensures p <= Pow2(k)
    {
      Pow2Grows(e, k);
    }
  }

  lemma {:induction false} Pow2Grows(a: nat, b: nat)
    requires a <= b
    ensures Pow2(a) <= Pow2(b)
    decreases b - a
  {
    if a < b {
      Pow2Grows(a, b - 1);
    }
  }

  /** A block of bytes copied into the ring, wrapping once; `None` when what is left
      behind the wrap is longer than the ring. */
  function CopyInto(ring: seq<Byte>, offset: nat, src: seq<Byte>): (r: Option<seq<Byte>>)
    requires offset < |ring|
    ensures r.Some? ==> |r.value| == |ring|
  {
    var first := Min(|src|, |ring| - offset);
    if |src| - first > |ring| then None
    else
      var once := Write(ring, offset, src[..first]);
      Some(if first < |src| then Write(once, 0, src[first..]) else once)
  }

  datatype Push = Refused | OutOfBounds | Pushed(ring: seq<Byte>)

  /** What a push does to the bytes of the ring, whatever the length of its payload:
      room is looked for by the 32-bit length, and all of the payload is copied. */
  function PushBytes(ring: seq<Byte>, consumed: nat, produced: nat, data: Message): Push
    requires 0 < |ring| && consumed <= produced
  {
    var size := |data| % MAX_MESSAGE;
    if |ring| - (produced - consumed) < HEADER + size then Refused
    else
      var headed := CopyInto(ring, Slot(produced, |ring|), Header(size));
      if headed.None? then OutOfBounds
      else
        var copied := CopyInto(headed.value, Slot(produced + HEADER, |ring|), data);
        if copied.None? then OutOfBounds else Pushed(copied.value)
  }

  /** The push is refused, or appends the frame of what is carried to the live bytes. */
  ghost predicate Intact(ring: seq<Byte>, consumed: nat, produced: nat, data: Message)
    requires 0 < |ring| && consumed <= produced
  {
    match PushBytes(ring, consumed, produced, data)
    case Refused => true
    case OutOfBounds => false
    case Pushed(after) =>
      |after| == |ring| &&
      Stretch(after, consumed, produced + (HEADER + |Carried(data)|))
      == Stretch(ring, consumed, produced) + Frame(Carried(data))
  }

  class FastQueue {
    const capacity: nat
    const buffer: array<Byte>
    var read: Word
    var write: Word
    /** The true byte counts the cursors stand for. */
    ghost var produced: nat
    ghost var consumed: nat
    /** The messages queued, oldest first. */
    ghost var queue: seq<Message>

    ghost predicate Shaped()
      reads this
    {
      && PowerOfTwo(capacity) && buffer.Length == capacity > 0
      && consumed <= produced <= consumed + capacity
      && read == Wrap(consumed) && write == Wrap(produced)
    }

    /** The live bytes, between the cursors. */
    ghost function LiveBytes(): (r: seq<Byte>)
      requires Shaped()
      reads this, buffer
      ensures |r| == produced - consumed
    {
      Stretch(buffer[..], consumed, produced)
    }

    /** The live bytes are exactly the queued messages, framed. */
    ghost predicate Valid()
      reads this, buffer
    {
      Shaped() && Short(queue) && LiveBytes() == Encode(queue)
    }

    /** Whatever is in the ring decodes to the queued messages. */
    lemma LiveBytesDecode()
      requires Valid()
      ensures Decode(LiveBytes()) == Some(queue)
      ensures Size(queue) == produced - consumed <= capacity
    {
      DecodeInvertsEncode(queue);
      EncodeSize(queue);
    }

    constructor (capacityBytes: nat)
      requires capacityBytes <= Pow2(63)
      ensures Valid() && queue == [] && fresh(buffer)
      ensures capacityBytes <= capacity && forall k: nat :: capacityBytes <= Pow2(k) ==> capacity <= Pow2(k)
    {
      var p := RoundUpPow2(capacityBytes);
      PowerOfTwoFits(p);
      capacity := p;
      buffer := new Byte[p];
      read, write, produced, consumed, queue := 0, 0, 0, 0, [];
    }

    /** Mask a cursor to its offset in the buffer. */
    function Offset(pos: Word): nat {
      if capacity == 0 then 0 else BitAnd(pos, capacity - 1)
    }

    /** Positions `at` onwards hold `src`; the rest of the lap is as it was. */
    method CopyIn(pos: Word, src: seq<Byte>, ghost at: nat)
      requires PowerOfTwo(capacity) && buffer.Length == capacity > 0
      requires pos == Wrap(at) && |src| <= capacity
      modifies buffer
      ensures CopyInto(old(buffer[..]), Slot(at, capacity), src) == Some(buffer[..])
      ensures Stretch(buffer[..], at, at + |src|) == src
      ensures forall j: nat :: at + |src| <= j < at + capacity ==>
                buffer[Slot(j, capacity)] == old(buffer[Slot(j, capacity)])
    {
      hide BitAnd, Wrap, PowerOfTwo, Slot, Stretch, CopyInto;
      WrappedSlot(at, capacity);
      var offset := Offset(pos);
      var first := if |src| <= capacity - offset then |src| else capacity - offset;
      forall i | 0 <= i < first {
        buffer[offset + i] := src[i];
      }
      if first < |src| {
        forall i | 0 <= i < |src| - first {
          buffer[i] := src[first + i];
        }
      }
      CopyIntoIs(old(buffer[..]), buffer[..], src, offset, first);
      CopyIntoKeeps(old(buffer[..]), at, src);
    }

    /** The front of `dst` becomes what the ring holds from position `at` on. */
    method CopyOut(pos: Word, dst: array<Byte>, count: nat, ghost at: nat)
      requires PowerOfTwo(capacity) && buffer.Length == capacity > 0 && dst != buffer
      requires pos == Wrap(at) && count <= capacity && count <= dst.Length
      modifies dst
      ensures dst[..] == Stretch(buffer[..], at, at + count) + old(dst[count..])
    {
      hide BitAnd, Wrap, PowerOfTwo, Slot, Stretch;
      WrappedSlot(at, capacity);
      var offset := Offset(pos);
      var first := if count <= capacity - offset then count else capacity - offset;
      forall i | 0 <= i < first {
        dst[i] := buffer[offset + i];
      }
      if first < count {
        forall i | first <= i < count {
          dst[i] := buffer[i - first];
        }
      }
      CopiedOut(buffer[..], old(dst[..]), dst[..], at, count, offset, first);
    }

    /** Enqueue one message. It fits exactly when its header and payload do. A length
        of 2^32 or more loses its high bits in the header, so of such a payload, if
        there is room to copy it, only the front is queued. */
    method TryPush(data: Message) returns (ok: bool)
      requires Valid() && SafeLength(|data|, capacity - Size(queue))
      modifies this, buffer
      ensures Valid()
      ensures ok <==> 4 + |Carried(data)| <= capacity - Size(old(queue))
      ensures queue == if ok then old(queue) + [Carried(data)] else old(queue)
      ensures PushBytes(old(buffer[..]), old(consumed), old(produced), data)
           == if ok then Pushed(buffer[..]) else Refused
    {
      hide BitAnd, Wrap, PowerOfTwo, Slot, Stretch, Encode, Header, Size, Short, Frame, PushBytes, Carried;
      var need := HEADER + |data| % MAX_MESSAGE;
      PowerOfTwoFits(capacity);
      WrappedDifference(produced, consumed);
      LiveBytesDecode();
      if capacity - Wrap(write - read) < need {
        PushRefused(buffer[..], consumed, produced, data);
        return false;
      }
      CopyFrame(data);
      PublishPush(need, Carried(data));
      return true;
    }

    /** Advance the write cursor over a copied frame. */
    method PublishPush(need: nat, ghost m: Message)
      requires Shaped() && Short(queue) && |m| < MAX_MESSAGE && need == HEADER + |m|
      requires produced + need <= consumed + capacity
      requires Stretch(buffer[..], consumed, produced + need) == Encode(queue) + Frame(m)
      modifies this`write, this`produced, this`queue
      ensures Valid() && queue == old(queue) + [m]
    {
      hide Wrap, PowerOfTwo, Slot, Stretch, Encode, Frame;
      WrappedSum(produced, need);
      write, produced := Wrap(write + need), produced + need;
      EncodeAppends(queue, m);
      queue := queue + [m];
    }

    /** Copy a message's header and payload in behind the live bytes. */
    method CopyFrame(data: Message)
      requires Shaped() && produced + HEADER + |data| <= consumed + capacity
      modifies buffer
      ensures Stretch(buffer[..], consumed, produced + (HEADER + |Carried(data)|)) == old(LiveBytes()) + Frame(Carried(data))
      ensures PushBytes(old(buffer[..]), consumed, produced, data) == Pushed(buffer[..])
    {
      hide BitAnd, Wrap, PowerOfTwo, Slot, Stretch, Header, Frame, CopyInto;
      CopyIn(write, Header(|data| % MAX_MESSAGE), produced);
      WrappedSum(produced, HEADER);
      CopyIn(Wrap(write + HEADER), data, produced + HEADER);
      PushIntact(old(buffer[..]), consumed, produced, data);
    }

    /** Dequeue one message into `out`. */
    method TryPop(out: array<Byte>) returns (popped: Option<nat>)
      requires Valid() && out != buffer
      requires queue != [] ==> |queue[0]| <= out.Length
      modifies this, out
      ensures Valid()
      ensures popped == if old(queue) == [] then None else Some(|old(queue)[0]|)
      ensures queue == if old(queue) == [] then [] else old(queue)[1..]
      ensures out[..] == if old(queue) == [] then old(out[..])
                         else old(queue)[0] + old(out[..])[|old(queue)[0]|..]
    {
      hide BitAnd, Wrap, PowerOfTwo, Slot, Stretch, Header, Length, Size, Frame, Encode, Short;
      PowerOfTwoFits(capacity);
      WrappedDifference(produced, consumed);
      EmptyMeansEqual();
      if read == write {
        return None;
      }
      var size := ReadLength();
      FrontMessage();
      assert Wrap(write - read) >= HEADER + size; // the queue is not corrupted
      WrappedSum(consumed, HEADER);
      CopyOut(Wrap(read + HEADER), out, size, consumed + HEADER);
      WrappedSum(consumed, HEADER + size);
      read, consumed := Wrap(read + (HEADER + size)), consumed + (HEADER + size);
      queue := queue[1..];
      return Some(size);
    }

    /** Where the oldest message stands in the ring, and what stands behind it. */
    lemma FrontMessage()
      requires Valid() && queue != []
      ensures var m := queue[0];
        && |m| < MAX_MESSAGE && consumed + HEADER + |m| <= produced && Short(queue[1..])
        && Stretch(buffer[..], consumed, consumed + HEADER) == Header(|m|)
        && Stretch(buffer[..], consumed + HEADER, consumed + HEADER + |m|) == m
        && Stretch(buffer[..], consumed + HEADER + |m|, produced) == Encode(queue[1..])
    {
      hide Wrap, PowerOfTwo, Slot, Stretch, Header, Encode, Short;
      var m, at := queue[0], consumed + HEADER;
      EncodeFront(queue);
      CutFront(Header(|m|), m + Encode(queue[1..]));
      CutFront(m, Encode(queue[1..]));
      StretchDrops(buffer[..], consumed, at, produced);
      StretchDrops(buffer[..], at, at + |m|, produced);
    }

    /** Read the oldest message's length out of its header. */
    method ReadLength() returns (size: nat)
      requires Valid() && queue != []
      ensures size == |queue[0]|
    {
      hide BitAnd, Wrap, PowerOfTwo, Slot, Stretch, Header, Length, Encode;
      FrontMessage();
      var header := new Byte[HEADER];
      CopyOut(read, header, HEADER, consumed);
      assert header[..] == Header(|queue[0]|);
      HeaderRoundTrips(|queue[0]|);
      size := Length(header[..]);
    }

    /** Equal cursors mean an empty queue, and only that. */
    lemma EmptyMeansEqual()
      requires Valid()
      ensures read == write <==> queue == []
    {
      hide Stretch, Slot, Wrap, PowerOfTwo, Encode, Short;
      PowerOfTwoFits(capacity);
      WrappedDifference(produced, consumed);
      SmallWrap(0);
      LiveBytesDecode();
    }
  }

  lemma FrameBehind(bytes: seq<Byte>, m: Message)
    requires |m| < MAX_MESSAGE
    ensures bytes + Header(|m|) + m == bytes + Frame(m)
  {
  }

  lemma EncodeFront(queue: seq<Message>)
    requires Short(queue) && queue != []
    ensures |queue[0]| < MAX_MESSAGE && Short(queue[1..])
    ensures Encode(queue) == Header(|queue[0]|) + (queue[0] + Encode(queue[1..]))
  {
    hide Header;
  }

  lemma CutFront(a: seq<Byte>, b: seq<Byte>)
    ensures (a + b)[..|a|] == a && (a + b)[|a|..] == b
  {
  }

  lemma CopiedOut(ring: seq<Byte>, before: seq<Byte>, after: seq<Byte>, at: nat, count: nat, offset: nat, first: nat)
    requires 0 < |ring| && count <= |ring| && offset == Slot(at, |ring|) && count <= |before| == |after|
    requires first == if count <= |ring| - offset then count else |ring| - offset
    requires forall x :: 0 <= x < |after| ==>
               after[x] == if x < first then ring[offset + x] else if x < count then ring[x - first] else before[x]
    ensures after == Stretch(ring, at, at + count) + before[count..]
  {
    hide Slot, Stretch;
    StretchBlocks(ring, at, at + count, offset, first);
  }

  lemma CopyIntoIs(before: seq<Byte>, after: seq<Byte>, src: seq<Byte>, offset: nat, first: nat)
    requires offset < |before| == |after| && |src| <= |before|
    requires first == if |src| <= |before| - offset then |src| else |before| - offset
    requires forall x :: 0 <= x < |before| ==>
               after[x] == if x < |src| - first then src[first + x]
                           else if offset <= x < offset + first then src[x - offset] else before[x]
    ensures CopyInto(before, offset, src) == Some(after)
  {
    assert CopyInto(before, offset, src).value == after;
  }

  lemma CopyIntoAt(ring: seq<Byte>, offset: nat, src: seq<Byte>)
    requires offset < |ring| && CopyInto(ring, offset, src).Some?
    ensures var first := Min(|src|, |ring| - offset);
      forall x :: 0 <= x < |ring| ==>
        CopyInto(ring, offset, src).value[x]
        == if x < |src| - first then src[first + x]
           else if offset <= x < offset + first then src[x - offset] else ring[x]
  {
  }

  lemma CopyIntoFits(ring: seq<Byte>, offset: nat, src: seq<Byte>)
    requires offset < |ring| && |src| <= |ring|
    ensures CopyInto(ring, offset, src).Some?
  {
  }

  /** A copy no longer than the ring lands at its positions and touches no other. */
  lemma CopyIntoKeeps(ring: seq<Byte>, at: nat, src: seq<Byte>)
    requires 0 < |ring| && |src| <= |ring|
    ensures var r := CopyInto(ring, Slot(at, |ring|), src);
      && r.Some? && Stretch(r.value, at, at + |src|) == src
      && forall j: nat :: at + |src| <= j < at + |ring| ==> r.value[Slot(j, |ring|)] == ring[Slot(j, |ring|)]
  {
    hide Slot, Stretch, CopyInto;
    var n := |ring|;
    CopyIntoFits(ring, Slot(at, n), src);
    CopyIntoAt(ring, Slot(at, n), src);
    var after := CopyInto(ring, Slot(at, n), src).value;
    forall i | 0 <= i < |src|
      ensures Stretch(after, at, at + |src|)[i] == src[i]
    {
      SlotRun(at, i, n);
    }
    forall j: nat | at + |src| <= j < at + n
      ensures after[Slot(j, n)] == ring[Slot(j, n)]
    {
      SlotRun(at, j - at, n);
    }
  }

  lemma PushRefused(ring: seq<Byte>, consumed: nat, produced: nat, data: Message)
    requires 0 < |ring| && consumed <= produced
    requires |ring| - (produced - consumed) < HEADER + |data| % MAX_MESSAGE
    ensures PushBytes(ring, consumed, produced, data) == Refused
  {
  }

  /** With room for all of the payload, the push is intact. */
  lemma PushIntact(ring: seq<Byte>, consumed: nat, produced: nat, data: Message)
    requires 0 < |ring| && consumed <= produced && produced + HEADER + |data| <= consumed + |ring|
    ensures PushBytes(ring, consumed, produced, data).Pushed? && Intact(ring, consumed, produced, data)
  {
    hide Slot, Stretch, Header, Frame, CopyInto;
    var size, n, end := |data| % MAX_MESSAGE, |ring|, produced + HEADER;
    CopyIntoKeeps(ring, produced, Header(size));
    var headed := CopyInto(ring, Slot(produced, n), Header(size)).value;
    StretchKept(ring, headed, consumed, produced, produced, HEADER);
    StretchDrops(headed, consumed, produced, end);
    CopyIntoKeeps(headed, end, data);
    var after := CopyInto(headed, Slot(end, n), data).value;
    StretchKept(headed, after, consumed, end, end, |data|);
    StretchDrops(after, end, end + size, end + |data|);
    StretchDrops(after, consumed, end, end + size);
    FrameBehind(Stretch(ring, consumed, produced), Carried(data));
  }

  /** Copied from position `at` on, a block of one repeated byte leaves that byte
      wherever it reaches. */
  lemma CopyCovers(ring: seq<Byte>, at: nat, src: seq<Byte>, j: nat, b: Byte)
    requires 0 < |ring| && at <= j < at + |src| && j < at + |ring|
    requires forall i :: 0 <= i < |src| ==> src[i] == b
    requires CopyInto(ring, Slot(at, |ring|), src).Some?
    ensures CopyInto(ring, Slot(at, |ring|), src).value[Slot(j, |ring|)] == b
  {
    hide Slot, CopyInto;
    CopyIntoAt(ring, Slot(at, |ring|), src);
    SlotRun(at, j - at, |ring|);
  }

  /** A payload with room for what is carried but not for all of it goes around the
      ring to the byte at the front of the queue, and so spoils it for some payload. */
  lemma PushSpoils(ring: seq<Byte>, consumed: nat, produced: nat, data: Message, b: Byte)
    requires 0 < |ring| && consumed <= produced
    requires !SafeLength(|data|, |ring| - (produced - consumed))
    requires forall i :: 0 <= i < |data| ==> data[i] == b
    requires b != if consumed < produced then ring[Slot(consumed, |ring|)] else Header(|data| % MAX_MESSAGE)[0]
    ensures !Intact(ring, consumed, produced, data)
  {
    hide Slot, CopyInto, Header, Stretch;
    var n, size := |ring|, |data| % MAX_MESSAGE;
    if PushBytes(ring, consumed, produced, data).Pushed? {
      var headed := CopyInto(ring, Slot(produced, n), Header(size)).value;
      CopyCovers(headed, produced + HEADER, data, consumed + n, b);
      SlotNextLap(consumed, n);
      var after := CopyInto(headed, Slot(produced + HEADER, n), data).value;
      assert Stretch(after, consumed, produced + (HEADER + size))[0] == after[Slot(consumed + 0, n)] == b;
      var expected := Stretch(ring, consumed, produced) + Frame(Carried(data));
      assert expected[0] != b;
    }
  }

  /** A push is intact for every payload of a length exactly when that length is safe:
      all of it fits, or not even what is carried. */
  lemma PushSafeLength(ring: seq<Byte>, consumed: nat, produced: nat, length: nat)
    requires 0 < |ring| && consumed <= produced <= consumed + |ring|
    ensures (forall data: Message :: |data| == length ==> Intact(ring, consumed, produced, data))
       <==> SafeLength(length, |ring| - (produced - consumed))
  {
    hide Intact, Header, Slot;
    if SafeLength(length, |ring| - (produced - consumed)) {
      forall data: Message | |data| == length
        ensures Intact(ring, consumed, produced, data)
      {
        SafeIsIntact(ring, consumed, produced, data);
      }
    } else {
      var front := if consumed < produced then ring[Slot(consumed, |ring|)] else Header(length % MAX_MESSAGE)[0];
      var b: Byte := if front == 0 then 1 else 0;
      PushSpoils(ring, consumed, produced, seq(length, _ => b), b);
    }
  }

  lemma SafeIsIntact(ring: seq<Byte>, consumed: nat, produced: nat, data: Message)
    requires 0 < |ring| && consumed <= produced
    requires SafeLength(|data|, |ring| - (produced - consumed))
    ensures Intact(ring, consumed, produced, data)
  {
    hide Slot, CopyInto, Header, Stretch;
    if HEADER + |data| <= |ring| - (produced - consumed) {
      PushIntact(ring, consumed, produced, data);
    }
  }

  /** A message of 2^32 bytes, pushed onto a queue with room for it, arrives empty. */
  method PushTruncates() returns (queue: FastQueue, ok: bool)
    ensures queue.Valid() && ok && queue.queue == [[]]
  {
    hide Stretch, Header, PushBytes, PowerOfTwo;
    queue := RoomyQueue();
    ok := queue.TryPush(seq(MAX_MESSAGE, _ => 0));
  }

  method RoomyQueue() returns (queue: FastQueue)
    ensures fresh(queue) && fresh(queue.buffer) && queue.Valid() && queue.queue == []
    ensures queue.capacity >= 2 * MAX_MESSAGE
  {
    Pow2Grows(33, 63);
    Pow2Of33();
    queue := new FastQueue(2 * MAX_MESSAGE);
  }

  lemma Pow2Of33()
    ensures Pow2(33) == 2 * MAX_MESSAGE
  {
    assert Pow2(8) == 256;
    Pow2Sum(8, 8);
    Pow2Sum(16, 16);
  }
}
