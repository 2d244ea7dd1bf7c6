/** Whole runs of the engine itself: the reference run, carried out on levels, lists
    and indexes. */
module EngineRuns {
  import opened Market
  import opened PriceTime
  import opened BookRep
  import opened BookMoves
  import opened OrderBooks
  import opened BookRuns

  /** Every operation of the run finds its precondition met: unused ids, levels set
      whose later orders are anonymous, and room in the pool. */
  ghost predicate Allowed(b: Book, ops: seq<Op>, capacity: nat)
    decreases |ops|
  {
    ops == [] ||
    (&& (ops[0].PlaceOp? ==> ops[0].order.id == ANONYMOUS || !Resting(b, ops[0].order.id))
     && (ops[0].SetOp? && ops[0].volume > 0 ==> TailAnonymousAt(b.Of(ops[0].side), ops[0].price))
     && Apply(b, ops[0]).Count() <= capacity
     && Allowed(Apply(b, ops[0]), ops[1..], capacity))
  }

  /** Every trade of the run, in order. */
  function Trades(b: Book, ops: seq<Op>): seq<Trade>
    decreases |ops|
  {
    if ops == [] then []
    else (if ops[0].PlaceOp? then Place(b, ops[0].order).trades else []) + Trades(Apply(b, ops[0]), ops[1..])
  }

  /** One operation on the engine. */
  method Perform(engine: OrderBook, op: Op) returns (trades: seq<Trade>)
    requires engine.Valid()
    requires Allowed(engine.Contents(), [op], engine.pool.capacity)
    modifies engine, engine.pool
    ensures engine.Valid() && engine.Contents() == Apply(old(engine.Contents()), op)
    ensures trades == if op.PlaceOp? then Place(old(engine.Contents()), op.order).trades else []
  {
    hide Rep.Invariant, Rep.Abs, Place, Cancel, Delete, Overwrite, Resting, TailAnonymousAt;
    trades := [];
    match op {
      case PlaceOp(o) => trades := engine.PlaceOrder(o);
      case CancelOp(id) => engine.CancelOrder(id);
      case AddOp(s, price, volume) =>
        if volume > 0 {
          AddsOne(engine.Contents(), s, Entry(price, ANONYMOUS, volume));
        }
        engine.AddOrder(s, price, volume);
      case DeleteOp(s, price, volume) => engine.DeleteOrder(s, price, volume);
      case SetOp(s, price, volume) => engine.SetLevel(s, price, volume);
    }
  }

  lemma AddsOne(b: Book, s: Side, e: Entry)
    ensures Add(b, s, e).Count() == b.Count() + 1
  {
    EnqueueGrows(s, b.Of(s), e);
  }

  /** The rest of a run is its next operation and the rest after that. */
  lemma {:induction false} RunStep(b: Book, ops: seq<Op>, i: nat, capacity: nat)
    requires i < |ops| && Allowed(b, ops[i..], capacity)
    ensures Allowed(b, [ops[i]], capacity) && Allowed(Apply(b, ops[i]), ops[i + 1..], capacity)
    ensures Run(b, ops[i..]) == Run(Apply(b, ops[i]), ops[i + 1..])
    ensures Trades(b, ops[i..])
         == (if ops[i].PlaceOp? then Place(b, ops[i].order).trades else []) + Trades(Apply(b, ops[i]), ops[i + 1..])
  {
    hide Apply, Place, Resting;
    assert ops[i..][1..] == ops[i + 1..];
  }

  lemma AppendAssociates(a: seq<Trade>, b: seq<Trade>, c: seq<Trade>)
    ensures a + (b + c) == a + b + c
  {
  }

  lemma RunEnd(b: Book, ops: seq<Op>)
    ensures Run(b, ops[|ops|..]) == b && Trades(b, ops[|ops|..]) == []
  {
  }

  /** What any run does to an ordered book: its volume balances, and an uncrossed book
      is never crossed exactly when nothing rested unmatched could have traded. */
  ghost predicate SoundRun(b: Book, ops: seq<Op>) {
    && Balances(RestingVolume(b), RestingVolume(Run(b, ops)), Accounts(b, ops))
    && (Uncrossed(b) ==> (UncrossedThroughout(b, ops) <==> HarmlessRun(b, ops)))
    && (Uncrossed(b) && HarmlessRun(b, ops) ==> Uncrossed(Run(b, ops)))
  }

  lemma RunsAreSound(b: Book, ops: seq<Op>)
    requires WellFormed(b)
    ensures SoundRun(b, ops)
  {
    hide Uncrossed, Balances, RestingVolume, Accounts, Run, UncrossedThroughout, HarmlessRun;
    LedgerBalances(b, ops);
    if Uncrossed(b) {
      NeverCrossed(b, ops);
    }
  }

  /** Any run on the engine ends with the book and the trades of the reference run,
      and is sound. */
  method Execute(engine: OrderBook, ops: seq<Op>) returns (trades: seq<Trade>)
    requires engine.Valid()
    requires Allowed(engine.Contents(), ops, engine.pool.capacity)
    modifies engine, engine.pool
    ensures engine.Valid() && engine.Contents() == Run(old(engine.Contents()), ops)
    ensures trades == Trades(old(engine.Contents()), ops)
    ensures SoundRun(old(engine.Contents()), ops)
  {
    hide OrderBook.Valid, OrderBook.Contents, Rep.Invariant, Rep.Abs, Apply, SoundRun, WellFormed, Allowed, Place, Run, Trades;
    ghost var b := engine.Contents();
    engine.ContentsAreWellFormed();
    RunsAreSound(b, ops);
    assert ops[0..] == ops;
    trades := [];
    for i := 0 to |ops|
      invariant engine.Valid() && Allowed(engine.Contents(), ops[i..], engine.pool.capacity)
      invariant Run(engine.Contents(), ops[i..]) == Run(b, ops)
      invariant trades + Trades(engine.Contents(), ops[i..]) == Trades(b, ops)
    {
      RunStep(engine.Contents(), ops, i, engine.pool.capacity);
      var more := Perform(engine, ops[i]);
      AppendAssociates(trades, more, Trades(engine.Contents(), ops[i + 1..]));
      trades := trades + more;
    }
    RunEnd(engine.Contents(), ops);
  }
}
