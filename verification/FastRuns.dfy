/** What a push and a pop of the two-thread byte queue achieve when their role runs
    them to the end, whatever the other role is in the middle of. */
module FastRuns {
  import opened Words
  import opened Rings
  import opened Framing
  import opened FastProtocol

  // -------------------------------------------------------------------- runs

  lemma {:induction false} RunConcat(s: State, first: seq<Action>, second: seq<Action>)
    ensures Run(s, first + second) == Run(Run(s, first), second)
    decreases |first|
  {
    hide Next;
    if first == [] {
      assert first + second == second;
    } else {
      assert (first + second)[1..] == first[1..] + second;
      RunConcat(Next(s, first[0]), first[1..], second);
    }
  }

  lemma RunNone(s: State)
    ensures Run(s, []) == s
  {
  }

  lemma RunOne(s: State, a: Action)
    ensures Run(s, [a]) == Next(s, a)
  {
    hide Next;
    RunNone(Next(s, a));
    assert [a][1..] == [];
  }

  lemma NextKeeps(s: State, a: Action)
    requires Invariant(s)
    ensures Invariant(Next(s, a))
  {
    hide Invariant, ProducerStep, ConsumerStep;
    ProducerKeeps(s, a);
    ConsumerKeeps(s, a);
  }

  /** Every index from `lo` up to `hi` is there, and none beyond. */
  ghost predicate Covers(order: seq<nat>, lo: nat, hi: nat) {
    (forall i :: lo <= i < hi ==> i in order) && forall i <- order :: i < hi
  }

  // ----------------------------------------------------------------- pushing

  function ByteIns(order: seq<nat>): seq<Action> {
    if order == [] then [] else [ByteIn(order[0])] + ByteIns(order[1..])
  }

  /** The steps of one push, its bytes copied in any order. */
  function PushSteps(m: Message, order: seq<nat>): seq<Action> {
    [StartPush(m)] + (ByteIns(order) + [PublishPush])
  }

  lemma PushBegins(s: State, m: Message)
    requires Invariant(s) && s.producer.PIdle? && SafeLength(|m|, |s.ring| - Size(Queued(s)))
    ensures Next(s, StartPush(m))
         == if 4 + |m| + Size(Queued(s)) <= |s.ring| then s.(producer := PCopy(m, {})) else s
  {
    hide Stretch, Encode, Size, Wrap, PowerOfTwo, Carried, Pushing, Popping;
    FreeBytes(s);
    EncodeSize(Queued(s));
  }

  lemma ByteInStep(s: State, i: nat)
    requires Invariant(s) && s.producer.PCopy? && i < HEADER + |s.producer.message|
    ensures var t := Next(s, ByteIn(i));
      Invariant(t) && t == s.(ring := t.ring, producer := PCopy(s.producer.message, s.producer.done + {i}))
  {
    hide Invariant;
    NextKeeps(s, ByteIn(i));
    ByteInWrites(s, i);
  }

  lemma {:induction false} CopiesAll(s: State, order: seq<nat>)
    requires Invariant(s) && s.producer.PCopy?
    requires forall i <- order :: i < HEADER + |s.producer.message|
    ensures var t := Run(s, ByteIns(order));
      && Invariant(t) && t.producer.PCopy? && t.producer.message == s.producer.message
      && t == s.(ring := t.ring, producer := t.producer)
      && s.producer.done <= t.producer.done && forall i <- order :: i in t.producer.done
    decreases |order|
  {
    hide Invariant, Next, Run;
    if order == [] {
      RunNone(s);
    } else {
      assert order[0] in order && forall i <- order[1..] :: i in order;
      ByteInStep(s, order[0]);
      RunConcat(s, [ByteIn(order[0])], ByteIns(order[1..]));
      RunOne(s, ByteIn(order[0]));
      CopiesAll(Next(s, ByteIn(order[0])), order[1..]);
    }
  }

  lemma {:induction false} IdleCopies(s: State, order: seq<nat>)
    requires s.producer.PIdle?
    ensures Run(s, ByteIns(order)) == s
  {
    hide Run;
    if order == [] {
      RunNone(s);
    } else {
      RunConcat(s, [ByteIn(order[0])], ByteIns(order[1..]));
      RunOne(s, ByteIn(order[0]));
      IdleCopies(s, order[1..]);
    }
  }

  lemma PublishPushStep(s: State)
    requires s.producer.PCopy? && Complete(s.producer.done, HEADER + |s.producer.message|)
    ensures var c := Carried(s.producer.message);
            var t := Next(s, PublishPush);
      t == s.(write := t.write, produced := s.produced + (4 + |c|), sent := s.sent + [c], producer := PIdle)
  {
    hide Wrap, Carried;
  }

  /** A push of a safe length that is run to its end, its bytes copied in any order,
      sends what it carries exactly when four bytes and the payload fit beside the
      messages queued, and otherwise changes nothing. */
  lemma PushCompletes(s: State, m: Message, order: seq<nat>)
    requires Invariant(s) && s.producer.PIdle? && SafeLength(|m|, |s.ring| - Size(Queued(s)))
    requires Covers(order, 0, 4 + |m|)
    ensures var t := Run(s, PushSteps(m, order));
      if 4 + |m| + Size(Queued(s)) <= |s.ring|
      then && Invariant(t) && t.producer.PIdle?
           && t.sent == s.sent + [Carried(m)] && t.produced == s.produced + (4 + |Carried(m)|)
           && t.consumer == s.consumer && t.received == s.received && t.consumed == s.consumed
      else t == s
  {
    hide Invariant, Run, Next, ByteIns, Carried, Size, SafeLength;
    var u := Next(s, StartPush(m));
    var v := Run(u, ByteIns(order));
    PushBegins(s, m);
    RunConcat(s, [StartPush(m)], ByteIns(order) + [PublishPush]);
    RunOne(s, StartPush(m));
    RunConcat(u, ByteIns(order), [PublishPush]);
    RunOne(v, PublishPush);
    NextKeeps(s, StartPush(m));
    if u.producer.PIdle? {
      IdleCopies(u, order);
      NothingToPublish(u);
    } else {
      CopiesAll(u, order);
      PublishPushStep(v);
    }
    NextKeeps(v, PublishPush);
  }

  lemma NothingToPublish(s: State)
    requires s.producer.PIdle?
    ensures Next(s, PublishPush) == s
  {
  }

  // ----------------------------------------------------------------- popping

  function ByteOuts(order: seq<nat>): seq<Action> {
    if order == [] then [] else [ByteOut(order[0])] + ByteOuts(order[1..])
  }

  /** The steps of one pop: the length bytes in one order, the payload in another. */
  function PopSteps(header: seq<nat>, payload: seq<nat>): seq<Action> {
    [StartPop] + (ByteOuts(header) + ([CheckHeader] + (ByteOuts(payload) + [PublishPop])))
  }

  function Got(c: Consumer): map<nat, Byte> {
    if c.CIdle? then map[] else c.got
  }

  /** `d` is `c` with more bytes read. */
  ghost predicate ReadOn(c: Consumer, d: Consumer) {
    !c.CIdle? && !d.CIdle? && c.got.Keys <= d.got.Keys && d == c.(got := d.got)
  }

  lemma ByteOutStep(s: State, i: nat)
    requires Invariant(s) && !s.consumer.CIdle?
    requires i < HEADER + (if s.consumer.CHeader? then 0 else s.consumer.size)
    ensures var t := Next(s, ByteOut(i));
      && Invariant(t) && t == s.(consumer := t.consumer)
      && ReadOn(s.consumer, t.consumer) && i in Got(t.consumer)
  {
    hide PowerOfTwo, Wrap, SlotAt, Frame, Stretch, Slot, Encode;
    NextKeeps(s, ByteOut(i));
    ReadsFrame(s, i);
  }

  lemma {:induction false} ReadsAll(s: State, order: seq<nat>)
    requires Invariant(s) && !s.consumer.CIdle?
    requires forall i <- order :: i < HEADER + (if s.consumer.CHeader? then 0 else s.consumer.size)
    ensures var t := Run(s, ByteOuts(order));
      && Invariant(t) && t == s.(consumer := t.consumer)
      && ReadOn(s.consumer, t.consumer) && forall i <- order :: i in Got(t.consumer)
    decreases |order|
  {
    hide Invariant, Next, Run;
    if order == [] {
      RunNone(s);
    } else {
      assert order[0] in order && forall i <- order[1..] :: i in order;
      ByteOutStep(s, order[0]);
      RunConcat(s, [ByteOut(order[0])], ByteOuts(order[1..]));
      RunOne(s, ByteOut(order[0]));
      ReadsAll(Next(s, ByteOut(order[0])), order[1..]);
    }
  }

  lemma CoveredIsComplete(order: seq<nat>, lo: nat, hi: nat, got: set<nat>)
    requires Covers(order, lo, hi) && Complete(got, lo) && forall i <- order :: i in got
    ensures Complete(got, hi)
  {
  }

  lemma PopBegins(s: State)
    requires Invariant(s) && s.consumer.CIdle?
    ensures Next(s, StartPop) == if Queued(s) == [] then s else s.(consumer := CHeader(s.write, s.produced, map[]))
  {
    hide Stretch, Encode, Wrap, PowerOfTwo, Pushing, Popping;
    EmptyMeansEqual(s);
  }

  lemma CheckHeaderStep(s: State)
    requires Invariant(s) && s.consumer.CHeader? && Complete(s.consumer.got.Keys, HEADER)
    ensures Queued(s) != []
    ensures Next(s, CheckHeader) == s.(consumer := CPayload(s.consumer.upTo, |Queued(s)[0]|, s.consumer.got))
  {
    hide PowerOfTwo, Wrap, Slot, Encode, Stretch, Frame, Length, Part, Short;
    LengthRead(s);
    CheckHeaderKeeps(s);
  }

  lemma PublishPopStep(s: State)
    requires Invariant(s) && s.consumer.CPayload? && Complete(s.consumer.got.Keys, HEADER + s.consumer.size)
    ensures Queued(s) != []
    ensures var t := Next(s, PublishPop);
      t == s.(read := t.read, consumed := s.consumed + (4 + |Queued(s)[0]|),
              received := s.received + [Queued(s)[0]], consumer := CIdle)
  {
    hide PowerOfTwo, Wrap, Slot, Encode, Stretch, Frame, Part, Short;
    PayloadRead(s);
  }

  /** A pop that is run to its end, its bytes copied in any order, receives the oldest
      message. */
  lemma PopCompletes(s: State, header: seq<nat>, payload: seq<nat>)
    requires Invariant(s) && s.consumer.CIdle? && Queued(s) != []
    requires Covers(header, 0, 4) && Covers(payload, 4, 4 + |Queued(s)[0]|)
    ensures var m := Queued(s)[0];
            var t := Run(s, PopSteps(header, payload));
      && Invariant(t) && t.consumer.CIdle?
      && t.received == s.received + [m] && t.consumed == s.consumed + (4 + |m|)
      && t.producer == s.producer && t.sent == s.sent && t.produced == s.produced
  {
    hide Invariant, Run, Next, ByteOuts, Queued;
    var u := Next(s, StartPop);
    PopBegins(s);
    NextKeeps(s, StartPop);
    RunOne(s, StartPop);
    RunConcat(s, [StartPop], ByteOuts(header) + ([CheckHeader] + (ByteOuts(payload) + [PublishPop])));
    SameQueue(s, u);
    PopsHeader(u, header, payload);
  }

  lemma SameQueue(s: State, t: State)
    requires t.sent == s.sent && t.received == s.received
    ensures Queued(t) == Queued(s)
  {
  }

  lemma PopsHeader(s: State, header: seq<nat>, payload: seq<nat>)
    requires Invariant(s) && s.consumer.CHeader? && Queued(s) != []
    requires Covers(header, 0, 4) && Covers(payload, 4, 4 + |Queued(s)[0]|)
    ensures var m := Queued(s)[0];
            var t := Run(s, ByteOuts(header) + ([CheckHeader] + (ByteOuts(payload) + [PublishPop])));
      && Invariant(t) && t.consumer.CIdle?
      && t.received == s.received + [m] && t.consumed == s.consumed + (4 + |m|)
      && t.producer == s.producer && t.sent == s.sent && t.produced == s.produced
  {
    hide Invariant, Run, Next, ByteOuts, Queued;
    var u := Run(s, ByteOuts(header));
    ReadsAll(s, header);
    SameQueue(s, u);
    RunConcat(s, ByteOuts(header), [CheckHeader] + (ByteOuts(payload) + [PublishPop]));
    CoveredIsComplete(header, 0, 4, u.consumer.got.Keys);
    CheckHeaderStep(u);
    NextKeeps(u, CheckHeader);
    RunOne(u, CheckHeader);
    RunConcat(u, [CheckHeader], ByteOuts(payload) + [PublishPop]);
    var v := Next(u, CheckHeader);
    SameQueue(s, v);
    PopsPayload(v, payload);
  }

  lemma PopsPayload(s: State, payload: seq<nat>)
    requires Invariant(s) && s.consumer.CPayload? && Queued(s) != [] && s.consumer.size == |Queued(s)[0]|
    requires Complete(s.consumer.got.Keys, HEADER) && Covers(payload, 4, 4 + |Queued(s)[0]|)
    ensures var m := Queued(s)[0];
            var t := Run(s, ByteOuts(payload) + [PublishPop]);
      && Invariant(t) && t.consumer.CIdle?
      && t.received == s.received + [m] && t.consumed == s.consumed + (4 + |m|)
      && t.producer == s.producer && t.sent == s.sent && t.produced == s.produced
  {
    hide Invariant, Run, Next, ByteOuts, Queued;
    var u := Run(s, ByteOuts(payload));
    ReadsAll(s, payload);
    SameQueue(s, u);
    RunConcat(s, ByteOuts(payload), [PublishPop]);
    RunOne(u, PublishPop);
    CoveredIsComplete(payload, 4, 4 + |Queued(s)[0]|, u.consumer.got.Keys);
    PublishPopStep(u);
    NextKeeps(u, PublishPop);
  }
}
