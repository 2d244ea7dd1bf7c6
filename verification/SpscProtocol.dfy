/** The same queue run by two threads. Every shared load, shared store and element
    access is one step, and the steps of the two roles interleave freely. Slots
    remember whether they hold an element, so that constructing over a live one or
    reading a dead one is visible as a fault. */
module SpscProtocol {
  import opened Commons
  import opened Words
  import opened Rings

  /** Where the producer is in `try_emplace`, `try_emplace_range` or `size`; at
      `PCheck` it is asserting that the queue is not full. */
  datatype Producer<T> =
    | PIdle
    | PReload(wanted: seq<T>)
    | PWrite(items: seq<T>, written: nat)
    | PCheck(items: seq<T>, write: Word)
    | PSize(write: Word)

  /** Where the consumer is in a dequeue of up to `limit` elements, in `clear` or
      in `size`; at `CCheck` it is asserting that the queue is not empty. `upTo` is
      the true count behind a loaded write cursor. */
  datatype Consumer =
    | CIdle
    | CReload(limit: nat)
    | CRead(count: nat, done: nat)
    | CCheck(count: nat, write: Word, upTo: nat)
    | CDestroy(count: nat, done: nat)
    | CClear(end: Word, upTo: nat, done: nat)
    | CSize(write: Word, upTo: nat)

  /** What became of an element: handed over, or dropped by `clear`. */
  datatype Fate<T> = Delivered(value: T) | Discarded(value: T)

  datatype State<T> = State(
    slots: seq<Option<T>>,
    read: Word, readLocal: Word, writeCache: Word,
    write: Word, writeLocal: Word, readCache: Word,
    producer: Producer<T>, consumer: Consumer,
    // history
    pushed: nat, popped: nat, seenPushed: nat, seenPopped: nat,
    batches: seq<seq<T>>, built: seq<T>, fates: seq<Fate<T>>, destroyed: seq<T>, sizes: seq<Word>,
    fault: bool)

  datatype Action<T> =
    | StartPush(items: seq<T>)
    | ReloadRead
    | CheckRoom
    | CheckRoomRead
    | Construct
    | PublishWrite
    | StartTake(limit: nat)
    | ReloadWrite
    | CheckElement
    | CheckElementRead
    | ReadSlot
    | DestroySlot
    | PublishRead
    | StartClear
    | ClearSlot
    | PublishClear
    | ProducerSize
    | ProducerSizeRead
    | ConsumerSize
    | ConsumerSizeRead

  /** The physical slot of a cursor. */
  function SlotAt<T>(s: State<T>, pos: Word): nat {
    if |s.slots| == 0 then 0 else BitAnd(pos, |s.slots| - 1)
  }

  function FreeSlots<T>(s: State<T>): Word {
    Wrap(|s.slots| - Wrap(s.writeLocal - s.readCache))
  }

  function Available<T>(s: State<T>): Word {
    Wrap(s.writeCache - s.readLocal)
  }

  function Init<T>(n: nat): State<T> {
    State(seq(n, _ => None), 0, 0, 0, 0, 0, 0, PIdle, CIdle, 0, 0, 0, 0, [], [], [], [], [], false)
  }

  // -------------------------------------------------------------------- steps

  /** Construct `value` in a slot; it is a fault if one is live there. */
  function Built<T>(s: State<T>, slot: nat, value: T): State<T> {
    if slot < |s.slots| && s.slots[slot].None? then
      s.(slots := s.slots[slot := Some(value)], built := s.built + [value])
    else s.(fault := true)
  }

  /** End the life of the element in a slot; it is a fault if there is none. */
  function Ended<T>(s: State<T>, slot: nat): State<T> {
    if slot < |s.slots| && s.slots[slot].Some? then
      s.(slots := s.slots[slot := None], destroyed := s.destroyed + [s.slots[slot].value])
    else s.(fault := true)
  }

  function ProducerStep<T>(s: State<T>, a: Action<T>): State<T> {
    match (a, s.producer)
    case (StartPush(items), PIdle) =>
      if |items| >= WORD then s
      else if FreeSlots(s) < |items| then s.(producer := PReload(items))
      else s.(producer := PWrite(items, 0))
    case (ReloadRead, PReload(items)) =>
      var t := s.(readCache := s.read, seenPopped := s.popped);
      if FreeSlots(t) >= |items| then t.(producer := PWrite(items, 0)) else t.(producer := PIdle)
    case (CheckRoom, PWrite(items, k)) =>
      if k > 0 || items == [] then s else s.(producer := PCheck(items, s.write))
    case (CheckRoomRead, PCheck(items, w)) =>
      var size := Wrap(w - s.read);
      s.(sizes := s.sizes + [size], fault := s.fault || size == |s.slots|, producer := PWrite(items, 0))
    case (Construct, PWrite(items, k)) =>
      if k >= |items| then s
      else Built(s, SlotAt(s, Wrap(s.writeLocal + k)), items[k]).(producer := PWrite(items, k + 1))
    case (PublishWrite, PWrite(items, k)) =>
      if k < |items| then s
      else
        var w := Wrap(s.writeLocal + |items|);
        s.(writeLocal := w, write := w, pushed := s.pushed + |items|,
           batches := s.batches + [items], producer := PIdle)
    case (ProducerSize, PIdle) => s.(producer := PSize(s.write))
    case (ProducerSizeRead, PSize(w)) => s.(sizes := s.sizes + [Wrap(w - s.read)], producer := PIdle)
    case _ => s
  }

  function ConsumerStep<T>(s: State<T>, a: Action<T>): State<T> {
    match (a, s.consumer)
    case (StartTake(limit), CIdle) =>
      if s.readLocal == s.writeCache then s.(consumer := CReload(limit))
      else s.(consumer := CRead(Min(limit, Available(s)), 0))
    case (ReloadWrite, CReload(limit)) =>
      var t := s.(writeCache := s.write, seenPushed := s.pushed);
      if Available(t) == 0 then t.(consumer := CIdle)
      else t.(consumer := CRead(Min(limit, Available(t)), 0))
    case (CheckElement, CRead(count, i)) =>
      if i > 0 || count == 0 then s else s.(consumer := CCheck(count, s.write, s.pushed))
    case (CheckElementRead, CCheck(count, w, _)) =>
      var size := Wrap(w - s.read);
      s.(sizes := s.sizes + [size], fault := s.fault || size == 0, consumer := CRead(count, 0))
    case (ReadSlot, CRead(count, i)) =>
      var slot := SlotAt(s, Wrap(s.readLocal + i));
      if i >= count then s
      else if slot < |s.slots| && s.slots[slot].Some? then
        s.(fates := s.fates + [Delivered(s.slots[slot].value)], consumer := CDestroy(count, i))
      else s.(fault := true)
    case (DestroySlot, CDestroy(count, i)) =>
      Ended(s, SlotAt(s, Wrap(s.readLocal + i))).(consumer := CRead(count, i + 1))
    case (PublishRead, CRead(count, i)) =>
      if i < count then s
      else
        var r := Wrap(s.readLocal + count);
        s.(readLocal := r, read := r, popped := s.popped + count, consumer := CIdle)
    case (StartClear, CIdle) => s.(consumer := CClear(s.write, s.pushed, 0))
    case (ClearSlot, CClear(end, upTo, i)) =>
      var slot := SlotAt(s, Wrap(s.readLocal + i));
      if Wrap(s.readLocal + i) == end then s
      else if slot < |s.slots| && s.slots[slot].Some? then
        Ended(s, slot).(fates := s.fates + [Discarded(s.slots[slot].value)], consumer := CClear(end, upTo, i + 1))
      else s.(fault := true)
    case (PublishClear, CClear(end, upTo, i)) =>
      if Wrap(s.readLocal + i) != end then s
      else s.(writeCache := end, seenPushed := upTo, readLocal := end, read := end, popped := s.popped + i,
              consumer := CIdle)
    case (ConsumerSize, CIdle) => s.(consumer := CSize(s.write, s.pushed))
    case (ConsumerSizeRead, CSize(w, _)) => s.(sizes := s.sizes + [Wrap(w - s.read)], consumer := CIdle)
    case _ => s
  }

  predicate ByProducer<T>(a: Action<T>) {
    || a.StartPush? || a.ReloadRead? || a.CheckRoom? || a.CheckRoomRead? || a.Construct? || a.PublishWrite?
    || a.ProducerSize? || a.ProducerSizeRead?
  }

  function Next<T>(s: State<T>, a: Action<T>): State<T> {
    if ByProducer(a) then ProducerStep(s, a) else ConsumerStep(s, a)
  }

  function Run<T>(s: State<T>, actions: seq<Action<T>>): State<T>
    decreases |actions|
  {
    if actions == [] then s else Run(Next(s, actions[0]), actions[1..])
  }

  // ---------------------------------------------------------------- invariant

  /** Elements constructed by the push in progress but not yet published. */
  function InFlight<T>(s: State<T>): nat {
    if s.producer.PWrite? then s.producer.written else 0
  }

  /** Elements destroyed by the take in progress but not yet released. */
  function Released<T>(s: State<T>): nat {
    match s.consumer
    case CRead(_, i) => i
    case CDestroy(_, i) => i
    case CClear(_, _, i) => i
    case _ => 0
  }

  /** The cursors are the wrapped counts, and the caches lag behind them. */
  ghost predicate Cursors<T>(s: State<T>) {
    && PowerOfTwo(|s.slots|)
    && s.popped <= s.pushed <= s.popped + |s.slots|
    && s.popped <= s.seenPushed <= s.pushed
    && s.seenPopped <= s.popped && s.pushed <= s.seenPopped + |s.slots|
    && s.read == s.readLocal == Wrap(s.popped) && s.writeCache == Wrap(s.seenPushed)
    && s.write == s.writeLocal == Wrap(s.pushed) && s.readCache == Wrap(s.seenPopped)
  }

  ghost predicate Producing<T>(s: State<T>) {
    && |s.built| == s.pushed + InFlight(s)
    && match s.producer
       case PReload(items) => |items| < WORD
       case PWrite(items, k) =>
         && k <= |items| && s.pushed + |items| <= s.seenPopped + |s.slots|
         && s.built[s.pushed..] == items[..k]
       case PCheck(items, w) =>
         items != [] && s.pushed + |items| <= s.seenPopped + |s.slots| && w == Wrap(s.pushed)
       case PSize(w) => w == Wrap(s.pushed)
       case PIdle => true
  }

  ghost predicate Consuming<T>(s: State<T>) {
    && |s.destroyed| == s.popped + Released(s)
    && |s.fates| == |s.destroyed| + (if s.consumer.CDestroy? then 1 else 0)
    && match s.consumer
       case CRead(count, i) => i <= count && s.popped + count <= s.seenPushed
       case CCheck(count, w, upTo) =>
         0 < count && s.popped + count <= s.seenPushed <= upTo <= s.pushed && w == Wrap(upTo)
       case CDestroy(count, i) => i < count && s.popped + count <= s.seenPushed
       case CClear(end, upTo, i) => end == Wrap(upTo) && s.popped + i <= upTo <= s.pushed && s.seenPushed <= upTo
       case CSize(w, upTo) => w == Wrap(upTo) && s.popped <= upTo <= s.pushed
       case _ => true
  }

  /** Elements leave in the order they were constructed, each one once. */
  ghost predicate InTurn<T>(s: State<T>) {
    && |s.destroyed| <= |s.fates| <= |s.built|
    && (forall k :: 0 <= k < |s.destroyed| ==> s.destroyed[k] == s.built[k])
    && (forall k :: 0 <= k < |s.fates| ==> s.fates[k].value == s.built[k])
  }

  /** A slot holds an element exactly from its construction to its destruction. */
  ghost predicate Owned<T>(s: State<T>) {
    var n := |s.slots|;
    && 0 < n && |s.destroyed| <= |s.built| <= |s.destroyed| + n
    && (forall j: nat :: |s.destroyed| <= j < |s.built| ==> s.slots[Slot(j, n)] == Some(s.built[j]))
    && (forall j: nat :: |s.built| <= j < |s.destroyed| + n ==> s.slots[Slot(j, n)] == None)
  }

  ghost predicate Invariant<T>(s: State<T>) {
    && Cursors(s) && Producing(s) && Consuming(s) && InTurn(s) && Owned(s)
    && !s.fault && forall k :: 0 <= k < |s.sizes| ==> s.sizes[k] <= |s.slots|
  }

  lemma InitKeeps<T>(n: nat)
    requires PowerOfTwo(n)
    ensures Invariant(Init<T>(n))
  {
    hide PowerOfTwo, Slot;
    PowerOfTwoFits(n);
  }

  // ------------------------------------------------------------ slot accesses

  lemma BuildKeeps<T>(s: State<T>, value: T)
    requires Owned(s) && PowerOfTwo(|s.slots|) && |s.built| < |s.destroyed| + |s.slots|
    ensures var t := Built(s, SlotAt(s, Wrap(|s.built|)), value);
      && t == s.(slots := t.slots, built := s.built + [value])
      && |t.slots| == |s.slots| && Owned(t)
  {
    hide PowerOfTwo, BitAnd, Wrap, Slot;
    var n := |s.slots|;
    WrappedSlot(|s.built|, n);
    var t := Built(s, SlotAt(s, Wrap(|s.built|)), value);
    forall j: nat | |s.destroyed| <= j < |s.destroyed| + n && j != |s.built|
      ensures t.slots[Slot(j, n)] == s.slots[Slot(j, n)]
    {
      if j < |s.built| {
        SlotsDiffer(j, |s.built|, n);
      } else {
        SlotsDiffer(|s.built|, j, n);
      }
    }
  }

  lemma EndKeeps<T>(s: State<T>)
    requires Owned(s) && PowerOfTwo(|s.slots|) && |s.destroyed| < |s.built|
    ensures var slot := SlotAt(s, Wrap(|s.destroyed|));
            var t := Ended(s, slot);
      && slot < |s.slots| && s.slots[slot] == Some(s.built[|s.destroyed|])
      && t == s.(slots := t.slots, destroyed := s.destroyed + [s.built[|s.destroyed|]])
      && |t.slots| == |s.slots| && Owned(t)
  {
    hide PowerOfTwo, BitAnd, Wrap, Slot;
    var n, d := |s.slots|, |s.destroyed|;
    WrappedSlot(d, n);
    SlotNextLap(d, n);
    var t := Ended(s, SlotAt(s, Wrap(d)));
    forall j: nat | d < j < d + n
      ensures t.slots[Slot(j, n)] == s.slots[Slot(j, n)]
    {
      SlotsDiffer(d, j, n);
    }
  }

  // ------------------------------------------- every step keeps the invariant

  lemma StartPushKeeps<T>(s: State<T>, items: seq<T>)
    requires Invariant(s) && s.producer.PIdle?
    ensures Invariant(ProducerStep(s, StartPush(items)))
  {
    hide Owned, InTurn, Consuming, Wrap, PowerOfTwo;
    PowerOfTwoFits(|s.slots|);
    WrappedFree(|s.slots|, s.pushed, s.seenPopped);
    var t := ProducerStep(s, StartPush(items));
    SameMemory(s, t);
  }

  /** The two roles' invariants do not look at each other's program counter. */
  lemma SameMemory<T>(s: State<T>, t: State<T>)
    requires t.slots == s.slots && t.built == s.built && t.destroyed == s.destroyed && t.fates == s.fates
    ensures Owned(s) ==> Owned(t)
    ensures InTurn(s) ==> InTurn(t)
    ensures (t.consumer == s.consumer && t.popped == s.popped && t.seenPushed == s.seenPushed
             && s.pushed <= t.pushed && Consuming(s)) ==> Consuming(t)
    ensures (t.producer == s.producer && t.pushed == s.pushed && s.seenPopped == t.seenPopped
             && Producing(s)) ==> Producing(t)
  {
  }

  lemma ReloadReadKeeps<T>(s: State<T>)
    requires Invariant(s) && s.producer.PReload?
    ensures Invariant(ProducerStep(s, ReloadRead))
  {
    hide Owned, InTurn, Consuming, Wrap, PowerOfTwo;
    PowerOfTwoFits(|s.slots|);
    WrappedFree(|s.slots|, s.pushed, s.popped);
    SameMemory(s, ProducerStep(s, ReloadRead));
  }

  lemma ConstructKeeps<T>(s: State<T>)
    requires Invariant(s) && s.producer.PWrite? && s.producer.written < |s.producer.items|
    ensures Invariant(ProducerStep(s, Construct))
  {
    hide Owned, PowerOfTwo, Wrap, SlotAt, Built;
    var PWrite(items, k) := s.producer;
    WrappedSum(s.pushed, k);
    SpaceToBuild(s);
    BuildKeeps(s, items[k]);
    var t := ProducerStep(s, Construct);
    assert t.built[s.pushed..] == s.built[s.pushed..] + [items[k]];
    OwnedFrame(Built(s, SlotAt(s, Wrap(|s.built|)), items[k]), t);
  }

  lemma SpaceToBuild<T>(s: State<T>)
    requires Cursors(s) && Producing(s) && Consuming(s)
    requires s.producer.PWrite? && s.producer.written < |s.producer.items|
    ensures |s.built| < |s.destroyed| + |s.slots|
  {
  }

  lemma OwnedFrame<T>(s: State<T>, t: State<T>)
    requires Owned(s) && t.slots == s.slots && t.built == s.built && t.destroyed == s.destroyed
    ensures Owned(t)
  {
  }

  lemma PublishWriteKeeps<T>(s: State<T>)
    requires Invariant(s) && s.producer.PWrite? && s.producer.written >= |s.producer.items|
    ensures Invariant(ProducerStep(s, PublishWrite))
  {
    hide Owned, InTurn, Consuming, Wrap, PowerOfTwo;
    WrappedSum(s.pushed, |s.producer.items|);
    SameMemory(s, ProducerStep(s, PublishWrite));
  }

  lemma ProducerSizeKeeps<T>(s: State<T>, a: Action<T>)
    requires Invariant(s)
    requires (a.ProducerSize? && s.producer.PIdle?) || (a.ProducerSizeRead? && s.producer.PSize?)
    ensures Invariant(ProducerStep(s, a))
  {
    hide Owned, InTurn, Consuming, Wrap, PowerOfTwo;
    PowerOfTwoFits(|s.slots|);
    WrappedDifference(s.pushed, s.popped);
    SameMemory(s, ProducerStep(s, a));
  }

  /** The producer's assertion that the queue is not full holds. */
  lemma CheckRoomKeeps<T>(s: State<T>, a: Action<T>)
    requires Invariant(s)
    requires (a.CheckRoom? && s.producer.PWrite?) || (a.CheckRoomRead? && s.producer.PCheck?)
    ensures Invariant(ProducerStep(s, a))
    ensures a.CheckRoomRead? ==>
              var size := Wrap(s.producer.write - s.read);
              size == s.pushed - s.popped < |s.slots| && ProducerStep(s, a).sizes == s.sizes + [size]
  {
    hide Owned, InTurn, Consuming, Wrap, PowerOfTwo;
    PowerOfTwoFits(|s.slots|);
    WrappedDifference(s.pushed, s.popped);
    SameMemory(s, ProducerStep(s, a));
  }

  lemma ProducerKeeps<T>(s: State<T>, a: Action<T>)
    requires Invariant(s)
    ensures Invariant(ProducerStep(s, a))
  {
    hide Invariant;
    match (a, s.producer) {
      case (StartPush(items), PIdle) => StartPushKeeps(s, items);
      case (ReloadRead, PReload(_)) => ReloadReadKeeps(s);
      case (CheckRoom, PWrite(_, _)) => CheckRoomKeeps(s, a);
      case (CheckRoomRead, PCheck(_, _)) => CheckRoomKeeps(s, a);
      case (Construct, PWrite(items, k)) =>
        if k < |items| {
          ConstructKeeps(s);
        }
      case (PublishWrite, PWrite(items, k)) =>
        if k >= |items| {
          PublishWriteKeeps(s);
        }
      case (ProducerSize, PIdle) => ProducerSizeKeeps(s, a);
      case (ProducerSizeRead, PSize(_)) => ProducerSizeKeeps(s, a);
      case _ =>
    }
  }

  /** Nothing in sight with a cached cursor means nothing in sight. */
  lemma CountsAgree<T>(s: State<T>)
    requires Cursors(s)
    ensures s.readLocal == s.writeCache <==> s.popped == s.seenPushed
    ensures Available(s) == s.seenPushed - s.popped
  {
    hide Wrap, PowerOfTwo;
    PowerOfTwoFits(|s.slots|);
    WrappedDifference(s.seenPushed, s.popped);
    SmallWrap(0);
  }

  lemma StartTakeKeeps<T>(s: State<T>, limit: nat)
    requires Invariant(s) && s.consumer.CIdle?
    ensures Invariant(ConsumerStep(s, StartTake(limit)))
  {
    hide Owned, InTurn, Producing, Wrap, PowerOfTwo;
    CountsAgree(s);
    SameMemory(s, ConsumerStep(s, StartTake(limit)));
  }

  lemma ReloadWriteKeeps<T>(s: State<T>)
    requires Invariant(s) && s.consumer.CReload?
    ensures Invariant(ConsumerStep(s, ReloadWrite))
  {
    hide Owned, InTurn, Producing, Wrap, PowerOfTwo;
    CountsAgree(s.(writeCache := s.write, seenPushed := s.pushed));
    SameMemory(s, ConsumerStep(s, ReloadWrite));
  }

  /** The consumer's assertion that the queue is not empty holds. */
  lemma CheckElementKeeps<T>(s: State<T>, a: Action<T>)
    requires Invariant(s)
    requires (a.CheckElement? && s.consumer.CRead?) || (a.CheckElementRead? && s.consumer.CCheck?)
    ensures Invariant(ConsumerStep(s, a))
    ensures a.CheckElementRead? ==>
              var size := Wrap(s.consumer.write - s.read);
              0 < size == s.consumer.upTo - s.popped && ConsumerStep(s, a).sizes == s.sizes + [size]
  {
    hide Owned, InTurn, Producing, Wrap, PowerOfTwo;
    PowerOfTwoFits(|s.slots|);
    if s.consumer.CCheck? {
      WrappedDifference(s.consumer.upTo, s.popped);
    }
    SameMemory(s, ConsumerStep(s, a));
  }

  /** The element the consumer is about to touch is there. */
  lemma NextElement<T>(s: State<T>)
    requires Invariant(s)
    requires |s.destroyed| < s.pushed
    ensures |s.destroyed| < |s.built|
    ensures var slot := SlotAt(s, Wrap(s.readLocal + Released(s)));
      && slot == SlotAt(s, Wrap(|s.destroyed|)) < |s.slots| && s.slots[slot] == Some(s.built[|s.destroyed|])
  {
    hide Owned, InTurn, Wrap, PowerOfTwo, SlotAt;
    WrappedSum(s.popped, Released(s));
    EndKeeps(s);
  }

  lemma ReadSlotKeeps<T>(s: State<T>)
    requires Invariant(s) && s.consumer.CRead? && s.consumer.done < s.consumer.count
    ensures Invariant(ConsumerStep(s, ReadSlot))
  {
    hide Owned, Wrap, PowerOfTwo, SlotAt;
    NextElement(s);
    var t := ConsumerStep(s, ReadSlot);
    OwnedFrame(s, t);
  }

  lemma DestroySlotKeeps<T>(s: State<T>)
    requires Invariant(s) && s.consumer.CDestroy?
    ensures Invariant(ConsumerStep(s, DestroySlot))
  {
    hide Owned, Wrap, PowerOfTwo, SlotAt, Ended;
    NextElement(s);
    EndKeeps(s);
    var t := ConsumerStep(s, DestroySlot);
    OwnedFrame(Ended(s, SlotAt(s, Wrap(|s.destroyed|))), t);
  }

  lemma PublishReadKeeps<T>(s: State<T>)
    requires Invariant(s) && s.consumer.CRead? && s.consumer.done >= s.consumer.count
    ensures Invariant(ConsumerStep(s, PublishRead))
  {
    hide Owned, InTurn, Producing, Wrap, PowerOfTwo;
    WrappedSum(s.popped, s.consumer.count);
    SameMemory(s, ConsumerStep(s, PublishRead));
  }

  lemma StartClearKeeps<T>(s: State<T>)
    requires Invariant(s) && s.consumer.CIdle?
    ensures Invariant(ConsumerStep(s, StartClear))
  {
  }

  /** Clearing has reached its end exactly when it has covered what it set out to. */
  lemma ClearProgress<T>(s: State<T>)
    requires Invariant(s) && s.consumer.CClear?
    ensures Wrap(s.readLocal + s.consumer.done) == s.consumer.end <==> s.popped + s.consumer.done == s.consumer.upTo
  {
    hide Owned, InTurn, Producing, Wrap, PowerOfTwo;
    PowerOfTwoFits(|s.slots|);
    WrappedSum(s.popped, s.consumer.done);
    WrappedDifference(s.consumer.upTo, s.popped + s.consumer.done);
    SmallWrap(0);
  }

  lemma ClearSlotKeeps<T>(s: State<T>)
    requires Invariant(s) && s.consumer.CClear?
    ensures Invariant(ConsumerStep(s, ClearSlot))
  {
    hide Owned, Wrap, PowerOfTwo, SlotAt, Ended;
    ClearProgress(s);
    if s.popped + s.consumer.done < s.consumer.upTo {
      NextElement(s);
      EndKeeps(s);
      var t := ConsumerStep(s, ClearSlot);
      OwnedFrame(Ended(s, SlotAt(s, Wrap(|s.destroyed|))), t);
    }
  }

  lemma PublishClearKeeps<T>(s: State<T>)
    requires Invariant(s) && s.consumer.CClear?
    ensures Invariant(ConsumerStep(s, PublishClear))
  {
    hide Owned, InTurn, Producing, Wrap, PowerOfTwo;
    ClearProgress(s);
    SameMemory(s, ConsumerStep(s, PublishClear));
  }

  lemma ConsumerSizeKeeps<T>(s: State<T>, a: Action<T>)
    requires Invariant(s)
    requires (a.ConsumerSize? && s.consumer.CIdle?) || (a.ConsumerSizeRead? && s.consumer.CSize?)
    ensures Invariant(ConsumerStep(s, a))
  {
    hide Owned, InTurn, Producing, Wrap, PowerOfTwo;
    PowerOfTwoFits(|s.slots|);
    if s.consumer.CSize? {
      WrappedDifference(s.consumer.upTo, s.popped);
    }
    SameMemory(s, ConsumerStep(s, a));
  }

  lemma ConsumerKeeps<T>(s: State<T>, a: Action<T>)
    requires Invariant(s)
    ensures Invariant(ConsumerStep(s, a))
  {
    hide Invariant;
    match (a, s.consumer) {
      case (StartTake(limit), CIdle) => StartTakeKeeps(s, limit);
      case (ReloadWrite, CReload(_)) => ReloadWriteKeeps(s);
      case (CheckElement, CRead(_, _)) => CheckElementKeeps(s, a);
      case (CheckElementRead, CCheck(_, _, _)) => CheckElementKeeps(s, a);
      case (ReadSlot, CRead(count, i)) =>
        if i < count {
          ReadSlotKeeps(s);
        }
      case (DestroySlot, CDestroy(_, _)) => DestroySlotKeeps(s);
      case (PublishRead, CRead(count, i)) =>
        if i >= count {
          PublishReadKeeps(s);
        }
      case (StartClear, CIdle) => StartClearKeeps(s);
      case (ClearSlot, CClear(_, _, _)) => ClearSlotKeeps(s);
      case (PublishClear, CClear(_, _, _)) => PublishClearKeeps(s);
      case (ConsumerSize, CIdle) => ConsumerSizeKeeps(s, a);
      case (ConsumerSizeRead, CSize(_, _)) => ConsumerSizeKeeps(s, a);
      case _ =>
    }
  }

  /** Every interleaving of the two roles' steps keeps the invariant. */
  lemma {:induction false} RunKeeps<T>(s: State<T>, actions: seq<Action<T>>)
    requires Invariant(s)
    ensures Invariant(Run(s, actions))
    decreases |actions|
  {
    hide Invariant, ProducerStep, ConsumerStep;
    if actions != [] {
      ProducerKeeps(s, actions[0]);
      ConsumerKeeps(s, actions[0]);
      RunKeeps(Next(s, actions[0]), actions[1..]);
    }
  }

  // ------------------------------------------------------------ what it means

  /** Everything the successful pushes handed in, in the order they were published. */
  function Published<T>(batches: seq<seq<T>>): seq<T> {
    if batches == [] then [] else Published(batches[..|batches| - 1]) + batches[|batches| - 1]
  }

  /** The elements before the write cursor are those published. */
  ghost predicate Batched<T>(s: State<T>) {
    s.pushed <= |s.built| && s.built[..s.pushed] == Published(s.batches)
  }

  lemma ProducerBatches<T>(s: State<T>, a: Action<T>)
    requires Invariant(s) && Batched(s)
    ensures Batched(ProducerStep(s, a))
  {
    hide Owned, InTurn, Consuming, Cursors, Wrap, SlotAt;
    var t := ProducerStep(s, a);
    if a.PublishWrite? && s.producer.PWrite? && s.producer.written >= |s.producer.items| {
      var items := s.producer.items;
      assert items[..|items|] == items;
      assert t.batches[..|t.batches| - 1] == s.batches;
      assert s.built[..t.pushed] == s.built[..s.pushed] + s.built[s.pushed..];
    } else if a.Construct? {
      assert t.built[..t.pushed] == s.built[..s.pushed];
    }
  }

  lemma ConsumerBatches<T>(s: State<T>, a: Action<T>)
    requires Batched(s)
    ensures Batched(ConsumerStep(s, a))
  {
    hide Wrap, SlotAt;
  }

  lemma {:induction false} RunBatches<T>(s: State<T>, actions: seq<Action<T>>)
    requires Invariant(s) && Batched(s)
    ensures Batched(Run(s, actions))
    decreases |actions|
  {
    hide Invariant, Batched, ProducerStep, ConsumerStep;
    if actions != [] {
      ProducerKeeps(s, actions[0]);
      ConsumerKeeps(s, actions[0]);
      ProducerBatches(s, actions[0]);
      ConsumerBatches(s, actions[0]);
      RunBatches(Next(s, actions[0]), actions[1..]);
    }
  }

  function Values<T>(fates: seq<Fate<T>>): (r: seq<T>)
    ensures |r| == |fates|
  {
    seq(|fates|, i requires 0 <= i < |fates| => fates[i].value)
  }

  /** From an empty queue, under every interleaving: what was handed over or dropped
      so far, followed by what the ring still holds up to the write cursor, is what
      the successful pushes handed in, in order; and never more than the capacity is
      in between. */
  lemma LosslessFifo<T>(n: nat, actions: seq<Action<T>>)
    requires PowerOfTwo(n)
    ensures var s := Run(Init<T>(n), actions);
      && |s.slots| == n > 0 && |s.fates| <= s.pushed && s.popped <= s.pushed <= s.popped + n
      && (forall j: nat :: |s.fates| <= j < s.pushed ==> s.slots[Slot(j, n)].Some?)
      && Published(s.batches) == Values(s.fates) + seq(s.pushed - |s.fates|, i requires 0 <= i < s.pushed - |s.fates| =>
                                                 s.slots[Slot(|s.fates| + i, n)].value)
  {
    hide Invariant;
    InitKeeps<T>(n);
    RunKeeps(Init<T>(n), actions);
    RunBatches(Init<T>(n), actions);
    RunSize(Init<T>(n), actions);
    FifoOfInvariant(Run(Init<T>(n), actions));
  }

  lemma {:induction false} RunSize<T>(s: State<T>, actions: seq<Action<T>>)
    ensures |Run(s, actions).slots| == |s.slots|
    decreases |actions|
  {
    if actions != [] {
      NextSize(s, actions[0]);
      RunSize(Next(s, actions[0]), actions[1..]);
    }
  }

  lemma NextSize<T>(s: State<T>, a: Action<T>)
    ensures |Next(s, a).slots| == |s.slots|
  {
  }

  lemma FifoOfInvariant<T>(s: State<T>)
    requires Invariant(s) && Batched(s)
    ensures var n := |s.slots|;
      && n > 0 && |s.fates| <= s.pushed && s.popped <= s.pushed <= s.popped + n
      && (forall j: nat :: |s.fates| <= j < s.pushed ==> s.slots[Slot(j, n)].Some?)
      && Published(s.batches) == Values(s.fates) + seq(s.pushed - |s.fates|, i requires 0 <= i < s.pushed - |s.fates| =>
                                                 s.slots[Slot(|s.fates| + i, n)].value)
  {
  }

  /** Under every interleaving no live slot is constructed over, no dead one is read
      or destroyed, the assertions that a queue with room is not full and one with
      elements is not empty hold, every element is destroyed at most once, in order,
      and `size`, whichever role calls it, stays within the capacity. */
  lemma NeverFaults<T>(n: nat, actions: seq<Action<T>>)
    requires PowerOfTwo(n)
    ensures var s := Run(Init<T>(n), actions);
      && !s.fault
      && SlotsReady(s)
      && s.destroyed <= s.built && |s.built| <= |s.destroyed| + n
      && forall k :: 0 <= k < |s.sizes| ==> s.sizes[k] <= n
  {
    hide Cursors, Producing, Consuming, SlotsReady;
    InitKeeps<T>(n);
    RunKeeps(Init<T>(n), actions);
    RunSize(Init<T>(n), actions);
    var s := Run(Init<T>(n), actions);
    SlotsAreReady(s);
    assert s.destroyed == s.built[..|s.destroyed|];
  }

  /** Is the consumer about to read or destroy an element, by a take or by `clear`? */
  ghost predicate TouchesElement<T>(s: State<T>) {
    || s.consumer.CDestroy?
    || (s.consumer.CRead? && s.consumer.done < s.consumer.count)
    || (s.consumer.CClear? && s.popped + s.consumer.done < s.consumer.upTo)
  }

  /** The slot about to be constructed in holds nothing, and the one about to be read
      or destroyed holds the oldest element not destroyed yet. */
  ghost predicate SlotsReady<T>(s: State<T>) {
    && (s.producer.PWrite? && s.producer.written < |s.producer.items| ==>
          var slot := SlotAt(s, Wrap(s.writeLocal + s.producer.written));
          slot < |s.slots| && s.slots[slot] == None)
    && (TouchesElement(s) ==>
          var slot := SlotAt(s, Wrap(s.readLocal + Released(s)));
          && slot < |s.slots| && |s.destroyed| < |s.built|
          && s.slots[slot] == Some(s.built[|s.destroyed|]))
  }

  lemma SlotsAreReady<T>(s: State<T>)
    requires Invariant(s)
    ensures SlotsReady(s)
  {
    hide Owned, InTurn, Wrap, PowerOfTwo, SlotAt;
    if s.producer.PWrite? && s.producer.written < |s.producer.items| {
      FreeSlotIsEmpty(s);
    }
    if TouchesElement(s) {
      NextElement(s);
    }
  }

  lemma FreeSlotIsEmpty<T>(s: State<T>)
    requires Invariant(s) && s.producer.PWrite? && s.producer.written < |s.producer.items|
    ensures var slot := SlotAt(s, Wrap(s.writeLocal + s.producer.written));
      slot < |s.slots| && s.slots[slot] == None
  {
    hide InTurn, Wrap, PowerOfTwo, BitAnd, Slot;
    WrappedSum(s.pushed, s.producer.written);
    WrappedSlot(|s.built|, |s.slots|);
    SpaceToBuild(s);
  }

  /** While the producer is about to construct and the consumer is about to read or
      destroy, they are at different slots. */
  lemma RolesApart<T>(s: State<T>)
    requires Invariant(s)
    requires s.producer.PWrite? && s.producer.written < |s.producer.items|
    requires TouchesElement(s)
    ensures SlotAt(s, Wrap(s.writeLocal + s.producer.written)) != SlotAt(s, Wrap(s.readLocal + Released(s)))
  {
    hide Owned, InTurn, Wrap, PowerOfTwo, BitAnd;
    WrappedSum(s.popped, Released(s));
    WrappedSum(s.pushed, s.producer.written);
    WrappedSlot(|s.built|, |s.slots|);
    WrappedSlot(|s.destroyed|, |s.slots|);
    SpaceToBuild(s);
    SlotsDiffer(|s.destroyed|, |s.built|, |s.slots|);
  }

  /** A push gives up only if, when it reloaded, the queue really had no room, and a
      take only if it really was empty. */
  lemma GivesUpOnlyWhenItMust<T>(s: State<T>)
    requires Invariant(s)
    ensures s.producer.PReload? ==>
              (ProducerStep(s, ReloadRead).producer.PIdle?
               <==> |s.slots| - (s.pushed - s.popped) < |s.producer.wanted|)
    ensures s.consumer.CReload? ==>
              (ConsumerStep(s, ReloadWrite).consumer.CIdle? <==> s.pushed == s.popped)
  {
    hide Owned, InTurn, Wrap, PowerOfTwo;
    PowerOfTwoFits(|s.slots|);
    WrappedFree(|s.slots|, s.pushed, s.popped);
    CountsAgree(s.(writeCache := s.write, seenPushed := s.pushed));
  }

  /** The destructor's loop over a quiescent queue. */
  function Destructed<T>(s: State<T>, count: nat): State<T>
  {
    if count == 0 then s
    else
      var t := Destructed(s, count - 1);
      Ended(t, SlotAt(t, Wrap(t.read + (count - 1))))
  }

  lemma {:induction false} DestructKeeps<T>(s: State<T>, count: nat)
    requires Invariant(s) && s.producer.PIdle? && s.consumer.CIdle? && s.popped + count <= s.pushed
    ensures var t := Destructed(s, count);
      && t == s.(slots := t.slots, destroyed := s.built[..s.popped + count])
      && |t.slots| == |s.slots| && Owned(t)
  {
    hide Owned, Wrap, PowerOfTwo, SlotAt, Ended;
    if count == 0 {
      assert s.destroyed == s.built[..s.popped];
    } else {
      DestructKeeps(s, count - 1);
      var t := Destructed(s, count - 1);
      WrappedSum(s.popped, count - 1);
      EndKeeps(t);
      assert s.built[..s.popped + count] == s.built[..s.popped + (count - 1)] + [s.built[s.popped + (count - 1)]];
    }
  }

  /** After any run that ends with both roles idle, the destructor leaves every
      element ever constructed destroyed exactly once, and no slot live. */
  lemma NothingOutlives<T>(s: State<T>)
    requires Invariant(s) && s.producer.PIdle? && s.consumer.CIdle?
    ensures var t := Destructed(s, s.pushed - s.popped);
      && !t.fault && t.destroyed == t.built
      && forall x :: 0 <= x < |t.slots| ==> t.slots[x] == None
  {
    hide Owned, Wrap, PowerOfTwo, SlotAt, Ended, Destructed;
    DestructKeeps(s, s.pushed - s.popped);
    assert s.built[..s.pushed] == s.built;
    NothingOwned(Destructed(s, s.pushed - s.popped));
  }

  lemma NothingOwned<T>(t: State<T>)
    requires Owned(t) && t.destroyed == t.built
    ensures forall x :: 0 <= x < |t.slots| ==> t.slots[x] == None
  {
    hide Slot;
    var n, lo := |t.slots|, |t.built|;
    forall x: nat | x < n
      ensures t.slots[x] == None
    {
      var ahead := if Slot(lo, n) <= x then x - Slot(lo, n) else x + n - Slot(lo, n);
      SlotAhead(lo, ahead, n, x);
      assert t.slots[Slot(lo + ahead, n)] == None;
    }
  }
}
