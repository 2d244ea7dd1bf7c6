/** The byte queue run by two threads. Loading the other role's cursor, moving one
    byte and storing the own cursor are one step each; the bytes of one copy move in
    any order, and the steps of the two roles interleave freely. Pushes are of lengths
    safe for the room found. */
module FastProtocol {
  import opened Commons
  import opened Words
  import opened Rings
  import opened Framing

  /** Where the producer is in `try_push`; `done` are the frame bytes written. */
  datatype Producer = PIdle | PCopy(message: Message, done: set<nat>)

  /** Where the consumer is in `try_pop`; `got` are the frame bytes read so far, and
      `upTo` is the true count behind the loaded write cursor. */
  datatype Consumer =
    | CIdle
    | CHeader(seen: Word, upTo: nat, got: map<nat, Byte>)
    | CPayload(upTo: nat, size: nat, got: map<nat, Byte>)

  datatype State = State(
    ring: seq<Byte>, read: Word, write: Word,
    producer: Producer, consumer: Consumer,
    // history
    consumed: nat, produced: nat, sent: seq<Message>, received: seq<Message>,
    fault: bool)

  datatype Action =
    | StartPush(message: Message)
    | ByteIn(index: nat)
    | PublishPush
    | StartPop
    | ByteOut(index: nat)
    | CheckHeader
    | PublishPop

  function SlotAt(s: State, pos: Word): nat {
    if |s.ring| == 0 then 0 else BitAnd(pos, |s.ring| - 1)
  }

  function Init(ring: seq<Byte>): State {
    State(ring, 0, 0, PIdle, CIdle, 0, 0, [], [], false)
  }

  predicate Complete(got: set<nat>, count: nat) {
    forall i :: 0 <= i < count ==> i in got
  }

  /** The bytes `lo` up to `hi` of those read. */
  function Part(got: map<nat, Byte>, lo: nat, hi: nat): (r: seq<Byte>)
    requires lo <= hi && Complete(got.Keys, hi)
    ensures |r| == hi - lo
  {
    seq(hi - lo, i requires 0 <= i < hi - lo => got[lo + i])
  }

  // -------------------------------------------------------------------- steps

  function ProducerStep(s: State, a: Action): State {
    match (a, s.producer)
    case (StartPush(m), PIdle) =>
      var free := |s.ring| - Wrap(s.write - s.read);
      if free < HEADER + |Carried(m)| || !SafeLength(|m|, free) then s
      else s.(producer := PCopy(m, {}))
    case (ByteIn(i), PCopy(m, done)) =>
      var slot := SlotAt(s, Wrap(s.write + i));
      if i >= HEADER + |m| || slot >= |s.ring| then s
      else s.(ring := s.ring[slot := Copied(m)[i]], producer := PCopy(m, done + {i}))
    case (PublishPush, PCopy(m, done)) =>
      if !Complete(done, HEADER + |m|) then s
      else s.(write := Wrap(s.write + (HEADER + |Carried(m)|)), produced := s.produced + (HEADER + |Carried(m)|),
              sent := s.sent + [Carried(m)], producer := PIdle)
    case _ => s
  }

  function ConsumerStep(s: State, a: Action): State {
    match (a, s.consumer)
    case (StartPop, CIdle) =>
      if s.read == s.write then s else s.(consumer := CHeader(s.write, s.produced, map[]))
    case (ByteOut(i), CHeader(seen, upTo, got)) =>
      var slot := SlotAt(s, Wrap(s.read + i));
      if i >= HEADER || slot >= |s.ring| then s
      else s.(consumer := CHeader(seen, upTo, got[i := s.ring[slot]]))
    case (CheckHeader, CHeader(seen, upTo, got)) =>
      if !Complete(got.Keys, HEADER) then s
      else
        var size := Length(Part(got, 0, HEADER));
        if Wrap(seen - s.read) < HEADER + size then s.(fault := true)
        else s.(consumer := CPayload(upTo, size, got))
    case (ByteOut(i), CPayload(upTo, size, got)) =>
      var slot := SlotAt(s, Wrap(s.read + i));
      if i >= HEADER + size || slot >= |s.ring| then s
      else s.(consumer := CPayload(upTo, size, got[i := s.ring[slot]]))
    case (PublishPop, CPayload(upTo, size, got)) =>
      if !Complete(got.Keys, HEADER + size) then s
      else s.(read := Wrap(s.read + (HEADER + size)), consumed := s.consumed + (HEADER + size),
              received := s.received + [Part(got, HEADER, HEADER + size)], consumer := CIdle)
    case _ => s
  }

  predicate ByProducer(a: Action) {
    a.StartPush? || a.ByteIn? || a.PublishPush?
  }

  function Next(s: State, a: Action): State {
    if ByProducer(a) then ProducerStep(s, a) else ConsumerStep(s, a)
  }

  function Run(s: State, actions: seq<Action>): State
    decreases |actions|
  {
    if actions == [] then s else Run(Next(s, actions[0]), actions[1..])
  }

  // ---------------------------------------------------------------- invariant

  ghost predicate Cursors(s: State) {
    && PowerOfTwo(|s.ring|) && |s.ring| > 0
    && s.consumed <= s.produced <= s.consumed + |s.ring|
    && s.read == Wrap(s.consumed) && s.write == Wrap(s.produced)
  }

  /** The messages published and not yet released. */
  function Queued(s: State): seq<Message> {
    if |s.received| <= |s.sent| then s.sent[|s.received|..] else []
  }

  ghost predicate Framed(s: State) {
    && s.received <= s.sent && Short(s.sent) && Short(Queued(s))
    && |s.ring| > 0 && s.consumed <= s.produced
    && Stretch(s.ring, s.consumed, s.produced) == Encode(Queued(s))
  }

  /** The producer's bytes go to free slots, and those it has copied are in place. */
  ghost predicate Pushing(s: State) {
    s.producer.PCopy? ==>
      var m := s.producer.message;
      && |s.ring| > 0 && s.produced + (HEADER + |m|) <= s.consumed + |s.ring|
      && forall i <- s.producer.done :: i < HEADER + |m| && s.ring[Slot(s.produced + i, |s.ring|)] == Copied(m)[i]
  }

  /** The consumer's bytes are those of the oldest message, which had been published
      when the write cursor was loaded. */
  ghost predicate Popping(s: State) {
    !s.consumer.CIdle? ==>
      && Queued(s) != [] && |Queued(s)[0]| < MAX_MESSAGE
      && s.consumed + (HEADER + |Queued(s)[0]|) <= s.consumer.upTo <= s.produced
      && (s.consumer.CHeader? ==> s.consumer.seen == Wrap(s.consumer.upTo))
      && (s.consumer.CPayload? ==> s.consumer.size == |Queued(s)[0]|)
      && forall i <- s.consumer.got :: i < HEADER + |Queued(s)[0]| && s.consumer.got[i] == Frame(Queued(s)[0])[i]
  }

  ghost predicate Invariant(s: State) {
    Cursors(s) && Framed(s) && Pushing(s) && Popping(s) && !s.fault
  }

  lemma InitKeeps(ring: seq<Byte>)
    requires PowerOfTwo(|ring|)
    ensures Invariant(Init(ring))
  {
    PowerOfTwoFits(|ring|);
  }

  // ------------------------------------------- every step keeps the invariant

  /** The free space the producer computes is the true one. */
  lemma FreeBytes(s: State)
    requires Cursors(s)
    ensures Wrap(s.write - s.read) == s.produced - s.consumed <= |s.ring| < WORD
  {
    hide PowerOfTwo;
    PowerOfTwoFits(|s.ring|);
    WrappedDifference(s.produced, s.consumed);
  }

  lemma StartPushKeeps(s: State, m: Message)
    requires Invariant(s) && s.producer.PIdle?
    ensures Invariant(ProducerStep(s, StartPush(m)))
  {
    hide PowerOfTwo, Wrap, Stretch, Slot, Encode, Frame;
    FreeBytes(s);
  }

  /** The slot a cursor and an index into the frame lead to. */
  lemma SlotOf(s: State, count: nat, i: nat)
    requires PowerOfTwo(|s.ring|)
    ensures |s.ring| > 0 && SlotAt(s, Wrap(Wrap(count) + i)) == Slot(count + i, |s.ring|)
  {
    hide PowerOfTwo, Wrap, Slot, BitAnd;
    WrappedSum(count, i);
    WrappedSlot(count + i, |s.ring|);
  }

  /** A byte written into free space leaves the live bytes and its neighbours alone. */
  lemma WriteKeeps(ring: seq<Byte>, lo: nat, hi: nat, at: nat, b: Byte)
    requires |ring| > 0 && lo <= hi <= at < lo + |ring|
    ensures var after := ring[Slot(at, |ring|) := b];
      && Stretch(after, lo, hi) == Stretch(ring, lo, hi)
      && forall j: nat :: hi <= j < lo + |ring| && j != at ==> after[Slot(j, |ring|)] == ring[Slot(j, |ring|)]
  {
    hide Slot, Stretch;
    var n := |ring|;
    var after := ring[Slot(at, n) := b];
    forall j: nat | at < j < at + n
      ensures after[Slot(j, n)] == ring[Slot(j, n)]
    {
      SlotsDiffer(at, j, n);
    }
    StretchKept(ring, after, lo, hi, at, 1);
    forall j: nat | hi <= j < at
      ensures after[Slot(j, n)] == ring[Slot(j, n)]
    {
      SlotsDiffer(j, at, n);
    }
  }

  lemma ByteInKeeps(s: State, i: nat)
    requires Invariant(s) && s.producer.PCopy? && i < HEADER + |s.producer.message|
    ensures Invariant(ProducerStep(s, ByteIn(i)))
  {
    hide Stretch, Slot, Encode, Frame, Pushing, Popping, PowerOfTwo, Wrap, Short;
    ByteInWrites(s, i);
    ByteInCopies(s, i);
    SamePopping(s, ProducerStep(s, ByteIn(i)));
  }

  lemma ByteInWrites(s: State, i: nat)
    requires Invariant(s) && s.producer.PCopy? && i < HEADER + |s.producer.message|
    ensures var m, t := s.producer.message, ProducerStep(s, ByteIn(i));
      && t == s.(ring := s.ring[Slot(s.produced + i, |s.ring|) := Copied(m)[i]],
                 producer := PCopy(m, s.producer.done + {i}))
      && Stretch(t.ring, s.consumed, s.produced) == Stretch(s.ring, s.consumed, s.produced)
  {
    hide PowerOfTwo, Wrap, Stretch, Slot, Encode, Frame, SlotAt, Popping, Copied;
    SlotOf(s, s.produced, i);
    WriteKeeps(s.ring, s.consumed, s.produced, s.produced + i, Copied(s.producer.message)[i]);
  }

  lemma ByteInCopies(s: State, i: nat)
    requires Invariant(s) && s.producer.PCopy? && i < HEADER + |s.producer.message|
    ensures Pushing(ProducerStep(s, ByteIn(i)))
  {
    hide PowerOfTwo, Wrap, Stretch, Slot, Encode, Frame, SlotAt, Popping, ProducerStep, Copied;
    var m := s.producer.message;
    ByteInWrites(s, i);
    WriteKeeps(s.ring, s.consumed, s.produced, s.produced + i, Copied(m)[i]);
  }

  lemma SamePopping(s: State, t: State)
    requires Popping(s) && t.consumer == s.consumer && t.consumed == s.consumed && t.produced == s.produced
    requires t.sent == s.sent && t.received == s.received
    ensures Popping(t)
  {
    hide Frame;
  }

  lemma PublishPushKeeps(s: State)
    requires Invariant(s) && s.producer.PCopy?
    ensures Invariant(ProducerStep(s, PublishPush))
  {
    hide PowerOfTwo, Wrap, Stretch, Slot, Encode, Frame, Popping, Copied, Carried;
    var m, t := s.producer.message, ProducerStep(s, PublishPush);
    if Complete(s.producer.done, HEADER + |m|) {
      WrappedSum(s.produced, HEADER + |Carried(m)|);
      assert Stretch(s.ring, s.produced, t.produced) == Copied(m)[..HEADER + |Carried(m)|];
      StretchDrops(s.ring, s.consumed, s.produced, t.produced);
      assert Queued(t) == Queued(s) + [Carried(m)];
      EncodeAppends(Queued(s), Carried(m));
    }
    PushedKeepsPopping(s);
  }

  lemma PushedKeepsPopping(s: State)
    requires Popping(s) && Framed(s)
    ensures Popping(ProducerStep(s, PublishPush))
  {
    hide Stretch, Slot, Encode, Frame, Short;
  }

  lemma ProducerKeeps(s: State, a: Action)
    requires Invariant(s)
    ensures Invariant(ProducerStep(s, a))
  {
    hide Invariant;
    match (a, s.producer) {
      case (StartPush(m), PIdle) => StartPushKeeps(s, m);
      case (ByteIn(i), PCopy(m, _)) =>
        if i < HEADER + |m| {
          ByteInKeeps(s, i);
        }
      case (PublishPush, PCopy(_, _)) => PublishPushKeeps(s);
      case _ =>
    }
  }

  /** The oldest message's frame is at the front of the live bytes. */
  lemma FrontFrame(s: State)
    requires Cursors(s) && Framed(s) && Queued(s) != []
    ensures |Queued(s)[0]| < MAX_MESSAGE && s.consumed + (HEADER + |Queued(s)[0]|) <= s.produced
    ensures Stretch(s.ring, s.consumed, s.consumed + (HEADER + |Queued(s)[0]|)) == Frame(Queued(s)[0])
    ensures Stretch(s.ring, s.consumed + (HEADER + |Queued(s)[0]|), s.produced) == Encode(Queued(s)[1..])
  {
    hide PowerOfTwo, Wrap, Stretch, Slot, Frame, Queued;
    var m := Queued(s)[0];
    StretchDrops(s.ring, s.consumed, s.consumed + (HEADER + |m|), s.produced);
  }

  /** Equal cursors mean no message is queued, and only that. */
  lemma EmptyMeansEqual(s: State)
    requires Cursors(s) && Framed(s)
    ensures s.read == s.write <==> Queued(s) == []
  {
    hide PowerOfTwo, Wrap, Stretch, Slot, Frame, Queued;
    FreeBytes(s);
    SmallWrap(0);
    EncodeSize(Queued(s));
  }

  lemma StartPopKeeps(s: State)
    requires Invariant(s) && s.consumer.CIdle?
    ensures Invariant(ConsumerStep(s, StartPop))
  {
    hide PowerOfTwo, Wrap, Stretch, Slot, Encode, Frame;
    EmptyMeansEqual(s);
    if s.read != s.write {
      FrontFrame(s);
    }
  }

  /** Reading at the front of the queue gives the bytes of the oldest frame. */
  lemma ReadsFrame(s: State, i: nat)
    requires Invariant(s) && Queued(s) != [] && i < HEADER + |Queued(s)[0]|
    ensures var slot := SlotAt(s, Wrap(s.read + i));
      |Queued(s)[0]| < MAX_MESSAGE && slot < |s.ring| && s.ring[slot] == Frame(Queued(s)[0])[i]
  {
    hide PowerOfTwo, Wrap, Slot, Encode, Frame, SlotAt, Stretch, Pushing, Popping, Queued;
    FrontFrame(s);
    SlotOf(s, s.consumed, i);
  }

  lemma ByteOutKeeps(s: State, i: nat)
    requires Invariant(s) && !s.consumer.CIdle?
    requires i < HEADER + (if s.consumer.CHeader? then 0 else s.consumer.size)
    ensures Invariant(ConsumerStep(s, ByteOut(i)))
  {
    hide PowerOfTwo, Wrap, Slot, Encode, Frame, SlotAt, Stretch, Short;
    ReadsFrame(s, i);
  }

  /** The length read is the length of the oldest message. */
  lemma LengthRead(s: State)
    requires Invariant(s) && s.consumer.CHeader? && Complete(s.consumer.got.Keys, HEADER)
    ensures Length(Part(s.consumer.got, 0, HEADER)) == |Queued(s)[0]|
  {
    hide PowerOfTwo, Wrap, Slot, Encode, Stretch, Header, Length, Short;
    var m := Queued(s)[0];
    assert Part(s.consumer.got, 0, HEADER) == Header(|m|);
    HeaderRoundTrips(|m|);
  }

  lemma CheckHeaderKeeps(s: State)
    requires Invariant(s) && s.consumer.CHeader?
    ensures Invariant(ConsumerStep(s, CheckHeader))
    ensures Complete(s.consumer.got.Keys, 4) ==>
              Wrap(s.consumer.seen - s.read) >= 4 + Length(Part(s.consumer.got, 0, 4))
  {
    hide PowerOfTwo, Wrap, Slot, Encode, Stretch, Frame, Length, Part, Short;
    if Complete(s.consumer.got.Keys, HEADER) {
      LengthRead(s);
      FreeBytes(s);
      WrappedDifference(s.consumer.upTo, s.consumed);
    }
  }

  lemma PublishPopKeeps(s: State)
    requires Invariant(s) && s.consumer.CPayload?
    ensures Invariant(ConsumerStep(s, PublishPop))
  {
    hide PowerOfTwo, Wrap, Slot, Encode, Stretch, Frame, Part, Framed, Short, Queued;
    if Complete(s.consumer.got.Keys, HEADER + s.consumer.size) {
      WrappedSum(s.consumed, HEADER + s.consumer.size);
      PopKeepsFramed(s);
    }
  }

  lemma PopKeepsFramed(s: State)
    requires Invariant(s) && s.consumer.CPayload? && Complete(s.consumer.got.Keys, HEADER + s.consumer.size)
    ensures var t := ConsumerStep(s, PublishPop);
      Framed(t) && Queued(t) == Queued(s)[1..]
  {
    hide PowerOfTwo, Wrap, Slot, Encode, Stretch, Frame, Part, Pushing;
    PayloadRead(s);
    FrontFrame(s);
    assert Queued(ConsumerStep(s, PublishPop)) == Queued(s)[1..];
  }

  lemma PayloadRead(s: State)
    requires Invariant(s) && s.consumer.CPayload? && Complete(s.consumer.got.Keys, HEADER + s.consumer.size)
    ensures Part(s.consumer.got, HEADER, HEADER + s.consumer.size) == Queued(s)[0]
  {
    hide PowerOfTwo, Wrap, Slot, Encode, Stretch, Header, Short;
  }

  lemma ConsumerKeeps(s: State, a: Action)
    requires Invariant(s)
    ensures Invariant(ConsumerStep(s, a))
  {
    hide Invariant;
    match (a, s.consumer) {
      case (StartPop, CIdle) => StartPopKeeps(s);
      case (ByteOut(i), CHeader(_, _, _)) =>
        if i < HEADER {
          ByteOutKeeps(s, i);
        }
      case (ByteOut(i), CPayload(_, size, _)) =>
        if i < HEADER + size {
          ByteOutKeeps(s, i);
        }
      case (CheckHeader, CHeader(_, _, _)) => CheckHeaderKeeps(s);
      case (PublishPop, CPayload(_, _, _)) => PublishPopKeeps(s);
      case _ =>
    }
  }

  /** Every interleaving of the two roles' steps keeps the invariant. */
  lemma {:induction false} RunKeeps(s: State, actions: seq<Action>)
    requires Invariant(s)
    ensures Invariant(Run(s, actions))
    decreases |actions|
  {
    hide Invariant, ProducerStep, ConsumerStep;
    if actions != [] {
      ProducerKeeps(s, actions[0]);
      ConsumerKeeps(s, actions[0]);
      RunKeeps(Next(s, actions[0]), actions[1..]);
    }
  }

  // ------------------------------------------------------------ what it means

  /** From an empty queue, under every interleaving: the messages received are the
      first of those sent, the bytes between the cursors decode to exactly the others,
      and the queue is never found corrupted. */
  lemma LosslessMessages(ring: seq<Byte>, actions: seq<Action>)
    requires PowerOfTwo(|ring|)
    ensures var s := Run(Init(ring), actions);
      && !s.fault && |s.ring| > 0 && s.consumed <= s.produced && |s.received| <= |s.sent|
      && s.received == s.sent[..|s.received|]
      && Decode(Stretch(s.ring, s.consumed, s.produced)) == Some(s.sent[|s.received|..])
      && Size(s.sent[|s.received|..]) == s.produced - s.consumed <= |s.ring|
  {
    hide Stretch, Encode, Decode, Pushing, Popping, Size, Init;
    InitKeeps(ring);
    RunKeeps(Init(ring), actions);
    var s := Run(Init(ring), actions);
    DecodeInvertsEncode(Queued(s));
    EncodeSize(Queued(s));
  }

  /** A push of a safe length starts exactly when the frame of what it carries fits
      beside the messages queued, and a pop exactly when there is one. */
  lemma StartsWhenItCan(s: State, m: Message)
    requires Invariant(s)
    ensures s.producer.PIdle? && SafeLength(|m|, |s.ring| - Size(Queued(s))) ==>
              (ProducerStep(s, StartPush(m)).producer.PCopy?
               <==> 4 + |Carried(m)| + Size(Queued(s)) <= |s.ring|)
    ensures s.consumer.CIdle? ==> (ConsumerStep(s, StartPop).consumer.CHeader? <==> Queued(s) != [])
  {
    hide Stretch, Encode, Size, Wrap, PowerOfTwo;
    FreeBytes(s);
    EncodeSize(Queued(s));
    EmptyMeansEqual(s);
  }

  /** The producer never writes a byte the consumer may be reading. */
  lemma RolesApart(s: State, i: nat, j: nat)
    requires Invariant(s) && s.producer.PCopy? && !s.consumer.CIdle?
    requires i < HEADER + |s.producer.message|
    requires j < HEADER + (if s.consumer.CHeader? then 0 else s.consumer.size)
    ensures SlotAt(s, Wrap(s.write + i)) != SlotAt(s, Wrap(s.read + j))
  {
    hide Stretch, Encode, Size, Wrap, PowerOfTwo, Slot, SlotAt, Frame;
    SlotOf(s, s.produced, i);
    SlotOf(s, s.consumed, j);
    SlotsDiffer(s.consumed + j, s.produced + i, |s.ring|);
  }
}
