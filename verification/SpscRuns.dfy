/** What each operation of the two-thread queue achieves when its role runs it to the
    end, whatever the caches hold and whatever the other role is in the middle of. */
module SpscRuns {
  import opened Commons
  import opened Words
  import opened SpscProtocol

  // -------------------------------------------------------------------- runs

  lemma {:induction false} RunConcat<T>(s: State<T>, first: seq<Action<T>>, second: seq<Action<T>>)
    ensures Run(s, first + second) == Run(Run(s, first), second)
    decreases |first|
  {
    hide Next;
    if first == [] {
      assert first + second == second;
    } else {
      assert (first + second)[1..] == first[1..] + second;
      RunConcat(Next(s, first[0]), first[1..], second);
    }
  }

  lemma RunNone<T>(s: State<T>)
    ensures Run(s, []) == s
  {
  }

  lemma RunOne<T>(s: State<T>, a: Action<T>)
    ensures Run(s, [a]) == Next(s, a)
  {
    hide Next;
    RunNone(Next(s, a));
    assert [a][1..] == [];
  }

  lemma RunTwo<T>(s: State<T>, a: Action<T>, b: Action<T>)
    ensures Run(s, [a, b]) == Next(Next(s, a), b)
  {
    hide Next, Run;
    assert [a, b] == [a] + [b];
    RunConcat(s, [a], [b]);
    RunOne(s, a);
    RunOne(Next(s, a), b);
  }

  lemma NextKeeps<T>(s: State<T>, a: Action<T>)
    requires Invariant(s)
    ensures Invariant(Next(s, a))
  {
    hide Invariant, ProducerStep, ConsumerStep;
    ProducerKeeps(s, a);
    ConsumerKeeps(s, a);
  }

  // ----------------------------------------------------------------- pushing

  function Constructs<T>(n: nat): seq<Action<T>> {
    if n == 0 then [] else [Construct] + Constructs(n - 1)
  }

  /** The steps of one push. */
  function PushSteps<T>(items: seq<T>): seq<Action<T>> {
    [StartPush(items), ReloadRead] + (Constructs(|items|) + [PublishWrite])
  }

  /** Free slots as the cached cursor shows them, and as it would after a reload. */
  lemma FreeSlotsAre<T>(s: State<T>)
    requires Invariant(s)
    ensures FreeSlots(s) == |s.slots| - (s.pushed - s.seenPopped) <= |s.slots| - (s.pushed - s.popped)
    ensures FreeSlots(s.(readCache := s.read, seenPopped := s.popped)) == |s.slots| - (s.pushed - s.popped)
  {
    hide Owned, InTurn, Consuming, Producing, Wrap, PowerOfTwo;
    PowerOfTwoFits(|s.slots|);
    WrappedFree(|s.slots|, s.pushed, s.seenPopped);
    WrappedFree(|s.slots|, s.pushed, s.popped);
  }

  lemma PushBegins<T>(s: State<T>, items: seq<T>)
    requires s.producer.PIdle? && |items| < WORD
    ensures Next(s, StartPush(items))
         == s.(producer := if FreeSlots(s) < |items| then PReload(items) else PWrite(items, 0))
  {
    hide FreeSlots;
  }

  lemma PushReloads<T>(s: State<T>)
    requires s.producer.PReload?
    ensures var t := s.(readCache := s.read, seenPopped := s.popped);
      Next(s, ReloadRead) == t.(producer := if FreeSlots(t) >= |s.producer.wanted| then PWrite(s.producer.wanted, 0)
                                            else PIdle)
  {
    hide FreeSlots;
  }

  lemma ReloadIgnored<T>(s: State<T>)
    requires s.producer.PWrite?
    ensures Next(s, ReloadRead) == s
  {
  }

  /** A push gets as far as writing exactly when its elements fit, stale cache or not. */
  lemma PushStarts<T>(s: State<T>, items: seq<T>)
    requires Invariant(s) && s.producer.PIdle? && |items| < WORD
    ensures var t := Run(s, [StartPush(items), ReloadRead]);
      && Invariant(t)
      && t == s.(producer := if |items| <= |s.slots| - (s.pushed - s.popped) then PWrite(items, 0) else PIdle,
                 readCache := t.readCache, seenPopped := t.seenPopped)
  {
    hide Invariant, FreeSlots, Run, Next;
    var u := Next(s, StartPush(items));
    RunTwo(s, StartPush(items), ReloadRead);
    FreeSlotsAre(s);
    PushBegins(s, items);
    NextKeeps(s, StartPush(items));
    NextKeeps(u, ReloadRead);
    if u.producer.PReload? {
      FreeSlotsAre(u);
      PushReloads(u);
    } else {
      ReloadIgnored(u);
    }
  }

  lemma ConstructStep<T>(s: State<T>)
    requires Invariant(s) && s.producer.PWrite? && s.producer.written < |s.producer.items|
    ensures var PWrite(items, k) := s.producer;
            var t := Next(s, Construct);
      Invariant(t) && t == s.(slots := t.slots, built := s.built + [items[k]], producer := PWrite(items, k + 1))
  {
    hide Owned, InTurn, Wrap, PowerOfTwo, SlotAt, Built;
    ConstructKeeps(s);
    WrappedSum(s.pushed, s.producer.written);
    SpaceToBuild(s);
    BuildKeeps(s, s.producer.items[s.producer.written]);
  }

  lemma {:induction false} ConstructsAll<T>(s: State<T>, n: nat)
    requires Invariant(s) && s.producer.PWrite? && s.producer.written + n == |s.producer.items|
    ensures var PWrite(items, k) := s.producer;
            var t := Run(s, Constructs(n));
      Invariant(t) && t == s.(slots := t.slots, built := s.built + items[k..], producer := PWrite(items, |items|))
    decreases n
  {
    hide Invariant, Next, Run;
    var PWrite(items, k) := s.producer;
    if n == 0 {
      RunNone(s);
    } else {
      RunConcat(s, [Construct], Constructs(n - 1));
      RunOne(s, Construct);
      ConstructStep(s);
      ConstructsAll(Next(s, Construct), n - 1);
      assert s.built + [items[k]] + items[k + 1..] == s.built + items[k..];
    }
  }

  lemma {:induction false} IdleConstructs<T>(s: State<T>, n: nat)
    requires s.producer.PIdle?
    ensures Run(s, Constructs(n)) == s
  {
    hide Next, Run;
    if n == 0 {
      RunNone(s);
    } else {
      RunConcat(s, [Construct], Constructs(n - 1));
      RunOne(s, Construct);
      IdleProducer(s);
      IdleConstructs(s, n - 1);
    }
  }

  lemma IdleProducer<T>(s: State<T>)
    requires s.producer.PIdle?
    ensures Next(s, Construct) == s && Next(s, PublishWrite) == s
  {
  }

  lemma PublishWriteStep<T>(s: State<T>)
    requires s.producer.PWrite? && s.producer.written == |s.producer.items|
    ensures var items := s.producer.items;
            var t := Next(s, PublishWrite);
      t == s.(writeLocal := t.write, write := t.write, pushed := s.pushed + |items|,
              batches := s.batches + [items], producer := PIdle)
  {
    hide Wrap;
  }

  /** A push that is run to its end publishes all of its elements exactly when they
      fit, however stale the cached cursor was, and otherwise nothing. */
  lemma PushCompletes<T>(s: State<T>, items: seq<T>)
    requires Invariant(s) && s.producer.PIdle? && |items| < WORD
    ensures var t := Run(s, PushSteps(items));
      && Invariant(t) && t.producer.PIdle?
      && t.consumer == s.consumer && t.popped == s.popped && t.fates == s.fates
      && if |items| <= |s.slots| - (s.pushed - s.popped)
         then t.batches == s.batches + [items] && t.pushed == s.pushed + |items| && t.built == s.built + items
         else t.batches == s.batches && t.pushed == s.pushed && t.built == s.built && t.slots == s.slots
  {
    hide Invariant, Constructs, Run, Next;
    var u := Run(s, [StartPush(items), ReloadRead]);
    var v := Run(u, Constructs(|items|));
    PushStarts(s, items);
    RunConcat(s, [StartPush(items), ReloadRead], Constructs(|items|) + [PublishWrite]);
    RunConcat(u, Constructs(|items|), [PublishWrite]);
    RunOne(v, PublishWrite);
    if u.producer.PIdle? {
      IdleConstructs(u, |items|);
      IdleProducer(u);
    } else {
      ConstructsAll(u, |items|);
      assert items[0..] == items;
      PublishWriteStep(v);
    }
    NextKeeps(v, PublishWrite);
  }

  // ------------------------------------------------------------------ taking

  /** How many elements a take can see. */
  function Visible<T>(s: State<T>): int {
    if s.popped == s.seenPushed then s.pushed - s.popped else s.seenPushed - s.popped
  }

  function Reads<T>(n: nat): seq<Action<T>> {
    if n == 0 then [] else [ReadSlot, DestroySlot] + Reads(n - 1)
  }

  /** The steps of one take of `n` elements. */
  function TakeSteps<T>(limit: nat, n: nat): seq<Action<T>> {
    [StartTake(limit), ReloadWrite] + (Reads(n) + [PublishRead])
  }

  function Delivery<T>(xs: seq<T>): (r: seq<Fate<T>>)
    ensures |r| == |xs|
  {
    seq(|xs|, i requires 0 <= i < |xs| => Delivered(xs[i]))
  }

  lemma DeliveryCons<T>(x: T, xs: seq<T>)
    ensures Delivery([x] + xs) == [Delivered(x)] + Delivery(xs)
  {
  }

  lemma VisibleIs<T>(s: State<T>)
    requires Invariant(s)
    ensures 0 <= Visible(s) <= s.pushed - s.popped && (Visible(s) == 0 <==> s.pushed == s.popped)
    ensures s.readLocal == s.writeCache <==> s.popped == s.seenPushed
    ensures Available(s) == s.seenPushed - s.popped
    ensures Available(s.(writeCache := s.write, seenPushed := s.pushed)) == s.pushed - s.popped
  {
    hide Owned, InTurn, Consuming, Producing, Wrap, PowerOfTwo;
    CountsAgree(s);
    CountsAgree(s.(writeCache := s.write, seenPushed := s.pushed));
  }

  lemma TakeBegins<T>(s: State<T>, limit: nat)
    requires s.consumer.CIdle?
    ensures Next(s, StartTake(limit))
         == s.(consumer := if s.readLocal == s.writeCache then CReload(limit)
                           else CRead(Min(limit, Available(s)), 0))
  {
    hide Available;
  }

  lemma TakeReloads<T>(s: State<T>)
    requires s.consumer.CReload?
    ensures var t := s.(writeCache := s.write, seenPushed := s.pushed);
      Next(s, ReloadWrite) == t.(consumer := if Available(t) == 0 then CIdle
                                             else CRead(Min(s.consumer.limit, Available(t)), 0))
  {
    hide Available;
  }

  lemma NoReload<T>(s: State<T>)
    requires s.consumer.CRead?
    ensures Next(s, ReloadWrite) == s
  {
  }

  lemma TakeStarts<T>(s: State<T>, limit: nat)
    requires Invariant(s) && s.consumer.CIdle?
    ensures var t := Run(s, [StartTake(limit), ReloadWrite]);
      && Invariant(t) && 0 <= Visible(s)
      && t == s.(consumer := if Visible(s) == 0 then CIdle else CRead(Min(limit, Visible(s)), 0),
                 writeCache := t.writeCache, seenPushed := t.seenPushed)
  {
    hide Invariant, Available, Run, Next, Min;
    var u := Next(s, StartTake(limit));
    RunTwo(s, StartTake(limit), ReloadWrite);
    VisibleIs(s);
    TakeBegins(s, limit);
    NextKeeps(s, StartTake(limit));
    NextKeeps(u, ReloadWrite);
    if u.consumer.CReload? {
      VisibleIs(u);
      TakeReloads(u);
    } else {
      NoReload(u);
    }
  }

  lemma ReadStep<T>(s: State<T>)
    requires Invariant(s) && s.consumer.CRead? && s.consumer.done < s.consumer.count
    ensures |s.destroyed| < |s.built|
    ensures var t := Next(s, ReadSlot);
      Invariant(t) && t == s.(fates := s.fates + [Delivered(s.built[|s.destroyed|])],
                              consumer := CDestroy(s.consumer.count, s.consumer.done))
  {
    hide Owned, Wrap, PowerOfTwo, SlotAt, InTurn;
    ReadSlotKeeps(s);
    NextElement(s);
  }

  lemma DestroyStep<T>(s: State<T>)
    requires Invariant(s) && s.consumer.CDestroy?
    ensures |s.destroyed| < |s.built|
    ensures var t := Next(s, DestroySlot);
      Invariant(t) && t == s.(slots := t.slots, destroyed := s.destroyed + [s.built[|s.destroyed|]],
                              consumer := CRead(s.consumer.count, s.consumer.done + 1))
  {
    hide Owned, Wrap, PowerOfTwo, SlotAt, Ended, InTurn;
    DestroySlotKeeps(s);
    NextElement(s);
    EndKeeps(s);
  }

  lemma ReadAndDestroy<T>(s: State<T>)
    requires Invariant(s) && s.consumer.CRead? && s.consumer.done < s.consumer.count
    ensures |s.destroyed| < |s.built|
    ensures var x := s.built[|s.destroyed|];
            var t := Run(s, [ReadSlot, DestroySlot]);
      Invariant(t) && t == s.(slots := t.slots, fates := s.fates + [Delivered(x)], destroyed := s.destroyed + [x],
                              consumer := CRead(s.consumer.count, s.consumer.done + 1))
  {
    hide Invariant, Next, Run;
    RunTwo(s, ReadSlot, DestroySlot);
    ReadStep(s);
    DestroyStep(Next(s, ReadSlot));
  }

  /** What is still to be read is there. */
  lemma ReadsInside<T>(s: State<T>)
    requires Invariant(s) && s.consumer.CRead?
    ensures |s.destroyed| + (s.consumer.count - s.consumer.done) <= |s.built| && s.consumer.done <= s.consumer.count
  {
  }

  lemma {:induction false} ReadsAll<T>(s: State<T>, n: nat)
    requires Invariant(s) && s.consumer.CRead? && s.consumer.done + n == s.consumer.count
    ensures |s.destroyed| + n <= |s.built|
    ensures var xs := s.built[|s.destroyed|..|s.destroyed| + n];
            var t := Run(s, Reads(n));
      Invariant(t) && t == s.(slots := t.slots, fates := s.fates + Delivery(xs), destroyed := s.destroyed + xs,
                              consumer := CRead(s.consumer.count, s.consumer.count))
    decreases n
  {
    hide Invariant, Next, Run, Delivery;
    ReadsInside(s);
    var d := |s.destroyed|;
    if n == 0 {
      RunNone(s);
      assert s.built[d..d] == [];
      assert s.fates + Delivery(s.built[d..d]) == s.fates && s.destroyed + s.built[d..d] == s.destroyed;
    } else {
      ReadAndDestroy(s);
      RunConcat(s, [ReadSlot, DestroySlot], Reads(n - 1));
      ReadsAll(Run(s, [ReadSlot, DestroySlot]), n - 1);
      DeliveryJoins(s.fates, s.destroyed, s.built, d, n);
    }
  }

  lemma DeliveryJoins<T>(fates: seq<Fate<T>>, destroyed: seq<T>, built: seq<T>, d: nat, n: nat)
    requires n > 0 && d + n <= |built|
    ensures fates + [Delivered(built[d])] + Delivery(built[d + 1..d + n]) == fates + Delivery(built[d..d + n])
    ensures destroyed + [built[d]] + built[d + 1..d + n] == destroyed + built[d..d + n]
  {
    hide Delivery;
    assert built[d..d + n] == [built[d]] + built[d + 1..d + n];
    DeliveryCons(built[d], built[d + 1..d + n]);
  }

  lemma {:induction false} IdleReads<T>(s: State<T>, n: nat)
    requires s.consumer.CIdle?
    ensures Run(s, Reads(n)) == s
  {
    hide Next, Run;
    if n == 0 {
      RunNone(s);
    } else {
      RunConcat(s, [ReadSlot, DestroySlot], Reads(n - 1));
      RunTwo(s, ReadSlot, DestroySlot);
      IdleConsumer(s);
      IdleReads(s, n - 1);
    }
  }

  lemma IdleConsumer<T>(s: State<T>)
    requires s.consumer.CIdle?
    ensures Next(s, ReadSlot) == s && Next(s, DestroySlot) == s && Next(s, PublishRead) == s
  {
  }

  lemma PublishReadStep<T>(s: State<T>)
    requires s.consumer.CRead? && s.consumer.done == s.consumer.count
    ensures var t := Next(s, PublishRead);
      t == s.(readLocal := t.read, read := t.read, popped := s.popped + s.consumer.count, consumer := CIdle)
  {
    hide Wrap;
  }

  lemma DestroyedSoFar<T>(s: State<T>)
    requires Invariant(s) && s.consumer.CIdle?
    ensures |s.destroyed| == s.popped <= s.pushed <= |s.built|
  {
  }

  /** A take that is run to its end delivers the first elements queued, as many as it
      can see and its limit allows; it sees some whenever any are published. */
  lemma TakeCompletes<T>(s: State<T>, limit: nat)
    requires Invariant(s) && s.consumer.CIdle?
    ensures 0 <= Visible(s) <= s.pushed - s.popped && (Visible(s) == 0 <==> s.pushed == s.popped)
    ensures var n := Min(limit, Visible(s));
            var t := Run(s, TakeSteps(limit, n));
      && Invariant(t) && t.consumer.CIdle? && s.popped + n <= |s.built|
      && t.producer == s.producer && t.pushed == s.pushed && t.built == s.built
      && t.popped == s.popped + n
      && t.fates == s.fates + Delivery(s.built[s.popped..s.popped + n])
  {
    hide Invariant, Available, Reads, Delivery, Next, Run;
    VisibleIs(s);
    TakeStarts(s, limit);
    DestroyedSoFar(s);
    var n: nat := Min(limit, Visible(s));
    var u := Run(s, [StartTake(limit), ReloadWrite]);
    var v := Run(u, Reads(n));
    RunConcat(s, [StartTake(limit), ReloadWrite], Reads(n) + [PublishRead]);
    RunConcat(u, Reads(n), [PublishRead]);
    RunOne(v, PublishRead);
    if u.consumer.CIdle? {
      IdleReads(u, n);
      IdleConsumer(u);
      assert s.fates + Delivery(s.built[s.popped..s.popped]) == s.fates;
    } else {
      ReadsAll(u, n);
      PublishReadStep(v);
    }
    NextKeeps(v, PublishRead);
  }

  // ---------------------------------------------------------------- clearing

  function Clears<T>(n: nat): seq<Action<T>> {
    if n == 0 then [] else [ClearSlot] + Clears(n - 1)
  }

  function ClearSteps<T>(n: nat): seq<Action<T>> {
    [StartClear] + (Clears(n) + [PublishClear])
  }

  function Disposal<T>(xs: seq<T>): (r: seq<Fate<T>>)
    ensures |r| == |xs|
  {
    seq(|xs|, i requires 0 <= i < |xs| => Discarded(xs[i]))
  }

  lemma DisposalCons<T>(x: T, xs: seq<T>)
    ensures Disposal([x] + xs) == [Discarded(x)] + Disposal(xs)
  {
  }

  lemma DisposalJoins<T>(fates: seq<Fate<T>>, destroyed: seq<T>, built: seq<T>, d: nat, n: nat)
    requires n > 0 && d + n <= |built|
    ensures fates + [Discarded(built[d])] + Disposal(built[d + 1..d + n]) == fates + Disposal(built[d..d + n])
    ensures destroyed + [built[d]] + built[d + 1..d + n] == destroyed + built[d..d + n]
  {
    hide Disposal;
    assert built[d..d + n] == [built[d]] + built[d + 1..d + n];
    DisposalCons(built[d], built[d + 1..d + n]);
  }

  lemma ClearStep<T>(s: State<T>)
    requires Invariant(s) && s.consumer.CClear? && s.popped + s.consumer.done < s.consumer.upTo
    ensures |s.destroyed| < |s.built|
    ensures var x := s.built[|s.destroyed|];
            var t := Next(s, ClearSlot);
      Invariant(t) && t == s.(slots := t.slots, fates := s.fates + [Discarded(x)], destroyed := s.destroyed + [x],
                              consumer := s.consumer.(done := s.consumer.done + 1))
  {
    hide Owned, Wrap, PowerOfTwo, SlotAt, Ended, InTurn;
    ClearSlotKeeps(s);
    ClearProgress(s);
    NextElement(s);
    EndKeeps(s);
  }

  lemma ClearsInside<T>(s: State<T>)
    requires Invariant(s) && s.consumer.CClear?
    ensures |s.destroyed| == s.popped + s.consumer.done <= s.consumer.upTo <= |s.built|
  {
  }

  lemma {:induction false} ClearsAll<T>(s: State<T>, n: nat)
    requires Invariant(s) && s.consumer.CClear? && s.popped + s.consumer.done + n == s.consumer.upTo
    ensures |s.destroyed| + n <= |s.built|
    ensures var xs := s.built[|s.destroyed|..|s.destroyed| + n];
            var t := Run(s, Clears(n));
      Invariant(t) && t == s.(slots := t.slots, fates := s.fates + Disposal(xs), destroyed := s.destroyed + xs,
                              consumer := s.consumer.(done := s.consumer.done + n))
    decreases n
  {
    hide Invariant, Next, Run, Disposal;
    ClearsInside(s);
    var d := |s.destroyed|;
    if n == 0 {
      RunNone(s);
      assert s.built[d..d] == [];
      assert s.fates + Disposal(s.built[d..d]) == s.fates && s.destroyed + s.built[d..d] == s.destroyed;
    } else {
      ClearStep(s);
      RunConcat(s, [ClearSlot], Clears(n - 1));
      RunOne(s, ClearSlot);
      ClearsAll(Next(s, ClearSlot), n - 1);
      DisposalJoins(s.fates, s.destroyed, s.built, d, n);
    }
  }

  lemma ClearBegins<T>(s: State<T>)
    requires s.consumer.CIdle?
    ensures Next(s, StartClear) == s.(consumer := CClear(s.write, s.pushed, 0))
  {
  }

  lemma PublishClearStep<T>(s: State<T>)
    requires Invariant(s) && s.consumer.CClear? && s.popped + s.consumer.done == s.consumer.upTo
    ensures var CClear(end, upTo, done) := s.consumer;
      Next(s, PublishClear) == s.(writeCache := end, seenPushed := upTo, readLocal := end, read := end,
                                  popped := upTo, consumer := CIdle)
  {
    hide Owned, InTurn, Producing, Consuming, Cursors, Wrap;
    ClearProgress(s);
  }

  /** A clear that is run to its end drops everything published, in order. */
  lemma ClearCompletes<T>(s: State<T>)
    requires Invariant(s) && s.consumer.CIdle?
    ensures s.popped <= s.pushed <= |s.built|
    ensures var t := Run(s, ClearSteps(s.pushed - s.popped));
      && Invariant(t) && t.consumer.CIdle?
      && t.producer == s.producer && t.pushed == s.pushed && t.built == s.built
      && t.popped == s.pushed
      && t.fates == s.fates + Disposal(s.built[s.popped..s.pushed])
  {
    hide Invariant, Clears, Disposal, Next, Run;
    DestroyedSoFar(s);
    var n: nat := s.pushed - s.popped;
    var u := Next(s, StartClear);
    var v := Run(u, Clears(n));
    ClearBegins(s);
    NextKeeps(s, StartClear);
    RunOne(s, StartClear);
    RunConcat(s, [StartClear], Clears(n) + [PublishClear]);
    RunConcat(u, Clears(n), [PublishClear]);
    ClearsAll(u, n);
    RunOne(v, PublishClear);
    PublishClearStep(v);
    NextKeeps(v, PublishClear);
  }

  // -------------------------------------------------------------------- size

  lemma CountFits<T>(s: State<T>)
    requires Invariant(s)
    ensures 0 <= s.pushed - s.popped < WORD && Wrap(s.write - s.read) == s.pushed - s.popped
  {
    hide Owned, InTurn, Producing, Consuming, PowerOfTwo, Wrap;
    PowerOfTwoFits(|s.slots|);
    WrappedDifference(s.pushed, s.popped);
  }

  lemma ProducerSizeSteps<T>(s: State<T>)
    ensures s.producer.PIdle? ==> Next(s, ProducerSize) == s.(producer := PSize(s.write))
    ensures s.producer.PSize? ==>
              Next(s, ProducerSizeRead)
              == s.(sizes := s.sizes + [Wrap(s.producer.write - s.read)], producer := PIdle)
  {
    hide Wrap, ConsumerStep;
  }

  lemma ConsumerSizeSteps<T>(s: State<T>)
    ensures s.consumer.CIdle? ==> Next(s, ConsumerSize) == s.(consumer := CSize(s.write, s.pushed))
    ensures s.consumer.CSize? ==>
              Next(s, ConsumerSizeRead)
              == s.(sizes := s.sizes + [Wrap(s.consumer.write - s.read)], consumer := CIdle)
  {
    hide Wrap, ProducerStep;
  }

  /** Undisturbed, `size` returns the number of elements published and not released, to
      the producer ... */
  lemma ProducerSizeCompletes<T>(s: State<T>)
    requires Invariant(s) && s.producer.PIdle?
    ensures 0 <= s.pushed - s.popped < WORD
    ensures var size: Word := s.pushed - s.popped;
      Run(s, [ProducerSize, ProducerSizeRead]) == s.(sizes := s.sizes + [size])
  {
    hide Invariant, Wrap, Next, Run;
    CountFits(s);
    RunTwo(s, ProducerSize, ProducerSizeRead);
    ProducerSizeSteps(s);
    ProducerSizeSteps(Next(s, ProducerSize));
  }

  /** ... as to the consumer. */
  lemma ConsumerSizeCompletes<T>(s: State<T>)
    requires Invariant(s) && s.consumer.CIdle?
    ensures 0 <= s.pushed - s.popped < WORD
    ensures var size: Word := s.pushed - s.popped;
      Run(s, [ConsumerSize, ConsumerSizeRead]) == s.(sizes := s.sizes + [size])
  {
    hide Invariant, Wrap, Next, Run;
    CountFits(s);
    RunTwo(s, ConsumerSize, ConsumerSizeRead);
    ConsumerSizeSteps(s);
    ConsumerSizeSteps(Next(s, ConsumerSize));
  }
}
