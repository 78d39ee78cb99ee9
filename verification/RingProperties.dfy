/**
 What the ring buffer promises, over every run: it is a bounded FIFO queue, it never touches
 storage in the wrong state, it rejects only when full, and its retries are paid for by other
 producers' progress.
 */
module RingProperties {
  import opened Prelude
  import opened RingMachine

  // ----- first in, first out; nothing lost, duplicated or reordered -----

  lemma {:induction false} ByPrefix<T>(c: seq<(Pid, T)>, k: nat, p: Pid)
    requires k <= |c|
    ensures By(c[..k], p) <= By(c, p)
    ensures (exists i :: k <= i < |c| && c[i].0 == p) ==> |By(c[..k], p)| < |By(c, p)|
  {
    if k == |c| { assert c[..k] == c; }
    else {
      var d := c[..|c| - 1];
      assert d[..k] == c[..k];
      ByPrefix(d, k, p);
      if c[|c| - 1].0 != p && exists i :: k <= i < |c| && c[i].0 == p {
        var i :| k <= i < |c| && c[i].0 == p;
        assert d[i].0 == p;
      }
    }
  }

  /** The popped values are the claimed values up to tail, in the order of the successful swaps;
      head stays within Capacity of the logical tail; and what the consumer got from a producer
      is a prefix of what that producer's try_push calls accepted, in their order. */
  lemma FifoDelivery<T>(cap: nat, steps: seq<Step<T>>, p: Pid)
    requires cap >= 2
    ensures var s := Run(cap, steps);
            && |s.claimed| == s.head
            && LogicalTail(s) <= s.head <= LogicalTail(s) + cap
            && s.tail <= LogicalTail(s) && s.popped == Values(s.claimed[..s.tail])
            && By(s.claimed, p) == Get(s, p).accepted + Pending(s, p)
            && By(s.claimed[..s.tail], p) <= Get(s, p).accepted
  {
    RunInv(cap, steps);
    var s := Run(cap, steps);
    assert ProducerOk(s, p);
    ByPrefix(s.claimed, s.tail, p);
    if Pending(s, p) != [] {
      assert s.claimed[Get(s, p).pc.push.pos].0 == p;
    }
  }

  datatype FifoOp<+T> = Enqueue(value: T) | Dequeue

  /** The specification: a queue that holds at most cap values, and what was taken from it. */
  datatype Fifo<+T> = Fifo(queue: seq<T>, out: seq<T>)

  /** The queue after the operations, or None if one of them enqueues to a full queue or
      dequeues from an empty one. */
  function FifoRun<T>(cap: nat, ops: seq<FifoOp<T>>): Option<Fifo<T>> {
    if ops == [] then Some(Fifo([], []))
    else
      match FifoRun(cap, ops[..|ops| - 1])
      case None => None
      case Some(f) => FifoApply(cap, f, ops[|ops| - 1])
  }

  function FifoApply<T>(cap: nat, f: Fifo<T>, op: FifoOp<T>): Option<Fifo<T>> {
    match op
    case Enqueue(v) => if |f.queue| < cap then Some(f.(queue := f.queue + [v])) else None
    case Dequeue =>
      if f.queue == [] then None else Some(Fifo(f.queue[1..], f.out + [f.queue[0]]))
  }

  lemma FifoSnoc<T>(cap: nat, ops: seq<FifoOp<T>>, op: FifoOp<T>)
    requires FifoRun(cap, ops).Some?
    ensures FifoRun(cap, ops + [op]) == FifoApply(cap, FifoRun(cap, ops).value, op)
  {
    assert (ops + [op])[..|ops|] == ops;
  }

  /** The queue operation a step stands for: a successful swap of head enqueues, the release
      store that recycles a slot dequeues, every other step does nothing. */
  function StepOp<T>(s: State<T>, step: Step<T>): Option<FifoOp<T>> {
    match step
    case Produce(p, spurious) =>
      var pc := Get(s, p).pc;
      if pc.Cas? && s.head == pc.push.pos && !spurious then Some(Enqueue(pc.push.value)) else None
    case Consume => if s.consumer.Recycle? then Some(Dequeue) else None
    case Call(_, _) => None
  }

  function Trace<T>(cap: nat, steps: seq<Step<T>>): seq<FifoOp<T>>
    requires cap > 0
  {
    if steps == [] then []
    else
      var before := steps[..|steps| - 1];
      match StepOp(Run(cap, before), steps[|steps| - 1])
      case None => Trace(cap, before)
      case Some(op) => Trace(cap, before) + [op]
  }

  /** Everything dequeued: the returned values and the one about to be returned. */
  function Dequeued<T>(s: State<T>): seq<T> {
    s.popped + if s.consumer.Advance? then [s.consumer.out] else []
  }

  lemma ProduceRefines<T>(s: State<T>, p: Pid, spurious: bool)
    requires Inv(s)
    ensures var s' := ProduceStep(s, p, spurious);
            && LogicalTail(s') == LogicalTail(s) <= |s'.claimed|
            && Dequeued(s') == Dequeued(s)
            && match StepOp(s, Produce(p, spurious))
               case None => s'.claimed == s.claimed && Queue(s') == Queue(s)
               case Some(op) => op.Enqueue? && |Queue(s)| < Cap(s) && Queue(s') == Queue(s) + [op.value]
  {
    assert ProducerOk(s, p);
    var s' := ProduceStep(s, p, spurious);
    var pc := Get(s, p).pc;
    if StepOp(s, Produce(p, spurious)).Some? {
      assert s'.claimed[LogicalTail(s)..] == s.claimed[LogicalTail(s)..] + [(p, pc.push.value)];
    }
  }

  /** One step changes the queue and the dequeued values exactly as its operations say. */
  lemma StepRefines<T>(s: State<T>, step: Step<T>)
    requires Inv(s)
    ensures Inv(Next(s, step))
    ensures var s' := Next(s, step);
            match StepOp(s, step)
            case None => Queue(s') == Queue(s) && Dequeued(s') == Dequeued(s)
            case Some(Enqueue(v)) =>
              |Queue(s)| < Cap(s) && Queue(s') == Queue(s) + [v] && Dequeued(s') == Dequeued(s)
            case Some(Dequeue) =>
              && Queue(s) != [] && Queue(s') == Queue(s)[1..]
              && Dequeued(s') == Dequeued(s) + [Queue(s)[0]]
  {
    NextKeepsInv(s, step);
    var s' := Next(s, step);
    match step
    case Produce(p, spurious) => ProduceRefines(s, p, spurious);
    case Consume =>
      if s.consumer.Recycle? {
        assert s.claimed[s.tail..] == [s.claimed[s.tail]] + s.claimed[s.tail + 1..];
      }
    case Call(_, _) =>
  }

  lemma RefinesOp<T>(s: State<T>, step: Step<T>, op: FifoOp<T>)
    requires Inv(s) && StepOp(s, step) == Some(op)
    ensures var s' := Next(s, step);
            && LogicalTail(s') <= |s'.claimed|
            && FifoApply(Cap(s), Fifo(Queue(s), Dequeued(s)), op)
               == Some(Fifo(Queue(s'), Dequeued(s')))
  {
    StepRefines(s, step);
  }

  /** Refinement: every run is a run of the bounded queue, which never overflows or underflows,
      and the values the queue hands out are the ones try_pop hands out. */
  lemma {:induction false} RefinesBoundedFifo<T>(cap: nat, steps: seq<Step<T>>)
    requires cap >= 2
    ensures Inv(Run(cap, steps))
    ensures FifoRun(cap, Trace(cap, steps))
            == Some(Fifo(Queue(Run(cap, steps)), Dequeued(Run(cap, steps))))
  {
    RunInv(cap, steps);
    if steps == [] {
      assert Queue(Run(cap, steps)) == [] && Dequeued(Run(cap, steps)) == [];
    } else {
      var before, step := steps[..|steps| - 1], steps[|steps| - 1];
      RefinesBoundedFifo(cap, before);
      var s, ops := Run(cap, before), Trace(cap, before);
      StepRefines(s, step);
      match StepOp(s, step)
      case None =>
      case Some(op) =>
        FifoSnoc(cap, ops, op);
        RefinesOp(s, step, op);
    }
  }

  /** try_pop finds nothing exactly when the queue is empty or its front value has been claimed
      but is not published yet. */
  lemma PopFindsNothing<T>(cap: nat, steps: seq<Step<T>>)
    requires cap >= 2
    ensures var s := Run(cap, steps);
            && Inv(s)
            && (s.consumer.CheckSeq? ==>
                (Next(s, Consume) == s <==>
                 Queue(s) == [] || Owns(s, s.claimed[s.tail].0, s.tail)))
  {
    RunInv(cap, steps);
    var s := Run(cap, steps);
    if s.consumer.CheckSeq? { CheckStep(s); }
  }

  ghost predicate NoneInFlight<T>(s: State<T>) {
    s.consumer.CheckSeq? && forall p: Pid :: Pending(s, p) == []
  }

  function Pops<T>(s: State<T>, n: nat): State<T>
    requires Cap(s) > 0
    decreases n
  {
    if n == 0 then s else Pops(Next(Next(Next(Next(s, Consume), Consume), Consume), Consume), n - 1)
  }

  /** With no call in flight, four accesses of the consumer return the front of the queue. */
  lemma PopOnce<T>(s: State<T>)
    requires Inv(s) && NoneInFlight(s) && Queue(s) != []
    ensures var s' := Pops(s, 1);
            && Inv(s') && NoneInFlight(s')
            && s'.claimed == s.claimed && s'.tail == s.tail + 1
            && s'.popped == s.popped + [Queue(s)[0]]
  {
    assert Pending(s, s.claimed[s.tail].0) == [];
    CheckStep(s);
    var s1 := Next(s, Consume);
    MoveOutStep(s1);
    assert SlotOk(s1, s1.tail);
    var s2 := Next(s1, Consume);
    RecycleStep(s2);
    var s3 := Next(s2, Consume);
    AdvanceStep(s3);
    var s4 := Next(s3, Consume);
    assert Pops(s, 1) == Pops(s4, 0);
    assert s4.producers == s.producers;
    assert forall p: Pid :: Pending(s4, p) == Pending(s, p);
  }

  /** No loss: once no call is in flight, popping as often as the queue is long returns every
      value that was ever claimed and empties the queue. */
  lemma {:induction false} DrainReturnsEverything<T>(s: State<T>)
    requires Inv(s) && NoneInFlight(s)
    ensures var s' := Pops(s, |Queue(s)|);
            Inv(s') && Queue(s') == [] && s'.popped == Values(s.claimed)
    decreases |s.claimed| - s.tail
  {
    if Queue(s) == [] { assert s.claimed[..s.tail] == s.claimed; }
    else {
      PopOnce(s);
      var s' := Pops(s, 1);
      DrainReturnsEverything(s');
      assert Pops(s, |Queue(s)|) == Pops(s', |Queue(s')|);
    }
  }

  // ----- storage lifecycle -----

  /** The next construct hits raw storage, the next move-out hits a live object. */
  ghost predicate StorageDiscipline<T>(s: State<T>)
    requires Cap(s) > 0
  {
    && (forall p: Pid :: Get(s, p).pc.Construct? ==> SlotAt(s, Get(s, p).pc.push.pos).storage.Raw?)
    && (s.consumer.MoveOut? ==> SlotAt(s, s.tail).storage.Full?)
  }

  /** p is between its claim and its publish on slot i. */
  ghost predicate Writing<T>(s: State<T>, p: Pid, i: nat)
    requires Cap(s) > 0
  {
    Pending(s, p) != [] && Get(s, p).pc.push.pos % Cap(s) == i
  }

  /** The consumer is between its ready check and its recycle on slot i. */
  ghost predicate Reading<T>(s: State<T>, i: nat)
    requires Cap(s) > 0
  {
    (s.consumer.MoveOut? || s.consumer.Recycle?) && s.tail % Cap(s) == i
  }

  lemma InvGivesDiscipline<T>(s: State<T>)
    requires Inv(s)
    ensures StorageDiscipline(s)
  {
    forall p: Pid | Get(s, p).pc.Construct?
      ensures SlotAt(s, Get(s, p).pc.push.pos).storage.Raw?
    {
      assert ProducerOk(s, p);
    }
    assert SlotOk(s, LogicalTail(s));
  }

  lemma WritersDistinct<T>(s: State<T>, p: Pid, q: Pid, i: nat)
    requires Inv(s) && Writing(s, p, i) && Writing(s, q, i)
    ensures p == q
  {
    assert ProducerOk(s, p) && ProducerOk(s, q);
    var a, b := Get(s, p).pc.push.pos, Get(s, q).pc.push.pos;
    if a < b { IndexDistinct(a, b, Cap(s)); }
    if b < a { IndexDistinct(b, a, Cap(s)); }
  }

  lemma ReaderAlone<T>(s: State<T>, p: Pid, i: nat)
    requires Inv(s) && Writing(s, p, i)
    ensures !Reading(s, i)
  {
    assert ProducerOk(s, p);
    var a := Get(s, p).pc.push.pos;
    if Reading(s, i) && s.tail < a { IndexDistinct(s.tail, a, Cap(s)); }
  }

  /** At most one thread works on a slot's storage at a time, and always on storage in the state
      that its access needs. */
  lemma StorageLifecycle<T>(cap: nat, steps: seq<Step<T>>, p: Pid, q: Pid, i: nat)
    requires cap >= 2
    ensures var s := Run(cap, steps);
            && StorageDiscipline(s)
            && (Writing(s, p, i) && Writing(s, q, i) ==> p == q)
            && !(Writing(s, p, i) && Reading(s, i))
  {
    RunInv(cap, steps);
    var s := Run(cap, steps);
    InvGivesDiscipline(s);
    if Writing(s, p, i) {
      ReaderAlone(s, p, i);
      if Writing(s, q, i) { WritersDistinct(s, p, q, i); }
    }
  }

  lemma RunSnoc<T>(cap: nat, steps: seq<Step<T>>, step: Step<T>)
    requires cap > 0
    ensures Run(cap, steps + [step]) == Next(Run(cap, steps), step)
  {
    assert (steps + [step])[..|steps|] == steps;
  }

  /** One push by producer 0, atomic access by atomic access. */
  function OnePush<T>(v: T): seq<Step<T>> {
    [Call(0, v)] + [Produce(0, false)] + [Produce(0, false)] + [Produce(0, false)]
    + [Produce(0, false)] + [Produce(0, false)]
  }

  /** The first half: producer 0 has claimed the only position. */
  lemma AfterClaim<T>(v: T, t: seq<Step<T>>)
    requires t == [Call(0, v)] + [Produce(0, false)] + [Produce(0, false)] + [Produce(0, false)]
    ensures Run(1, t)
            == State(1, 0, [Slot(0, Raw)], map[0 := Producer(Construct(Push(v, 0, 0, 0)), [])],
                     CheckSeq, [(0, v)], [])
  {
    hide Run;
    var c, go: Step<T> := Push(v, 0, 0, 0), Produce(0, false);
    var init := Init<T>(1);
    assert init.slots == [Slot(0, Raw)];
    RunNothing<T>(1);
    RunSnoc(1, [], Call(0, v));
    assert [] + [Call(0, v)] == [Call(0, v)];
    var t1 := [Call(0, v)];
    assert Run(1, t1) == init.(producers := map[0 := Producer(LoadHead(v), [])]);
    RunSnoc(1, t1, go);
    assert Run(1, t1 + [go]) == init.(producers := map[0 := Producer(LoadSeq(c), [])]);
    RunSnoc(1, t1 + [go], go);
    assert Run(1, t1 + [go] + [go]) == init.(producers := map[0 := Producer(Cas(c), [])]);
    RunSnoc(1, t1 + [go] + [go], go);
  }

  lemma RunNothing<T>(cap: nat)
    requires cap > 0
    ensures Run<T>(cap, []) == Init(cap)
  {
  }

  lemma AfterOnePush<T>(v: T)
    ensures Run(1, OnePush(v))
            == State(1, 0, [Slot(1, Full(v))], map[0 := Producer(Returned(true), [v])],
                     CheckSeq, [(0, v)], [])
  {
    hide Run;
    var c, go: Step<T> := Push(v, 0, 0, 0), Produce(0, false);
    var t := [Call(0, v)] + [go] + [go] + [go];
    AfterClaim(v, t);
    RunSnoc(1, t, go);
    var s := State(1, 0, [Slot(0, Full(v))], map[0 := Producer(Publish(c), [])], CheckSeq, [(0, v)], []);
    assert Run(1, t + [go]) == s;
    RunSnoc(1, t + [go], go);
    LastHalf(v, s);
  }

  lemma LastHalf<T>(v: T, s: State<T>)
    requires s == State(1, 0, [Slot(0, Full(v))], map[0 := Producer(Publish(Push(v, 0, 0, 0)), [])],
                        CheckSeq, [(0, v)], [])
    ensures Next(s, Produce(0, false))
            == State(1, 0, [Slot(1, Full(v))], map[0 := Producer(Returned(true), [v])],
                     CheckSeq, [(0, v)], [])
  {
    var s' := Next(s, Produce(0, false));
    assert s'.slots == [Slot(1, Full(v))];
    assert s'.producers[0].accepted == [v];
    assert s'.producers == map[0 := Producer(Returned(true), [v])];
  }

  /** With Capacity 1, which the static assertion admits, a second push with nothing popped in
      between is not rejected: it claims the full slot and is about to construct over the live
      object. */
  lemma CapacityOneOverwrites<T>(v: T)
    ensures !StorageDiscipline(
              Run(1, OnePush(v) + [Call(0, v)] + [Produce(0, false)] + [Produce(0, false)]
                     + [Produce(0, false)]))
  {
    AfterOnePush(v);
    var c, go: Step<T> := Push(v, 1, 1, 0), Produce(0, false);
    var t := OnePush(v);
    var s := Run(1, t);
    RunSnoc(1, t, Call(0, v));
    t := t + [Call(0, v)];
    assert Run(1, t) == s.(producers := map[0 := Producer(LoadHead(v), [v])]);
    RunSnoc(1, t, go);
    t := t + [go];
    assert Run(1, t) == s.(producers := map[0 := Producer(LoadSeq(c), [v])]);
    RunSnoc(1, t, go);
    t := t + [go];
    assert Run(1, t) == s.(producers := map[0 := Producer(Cas(c), [v])]);
    RunSnoc(1, t, go);
    t := t + [go];
    assert Get(Run(1, t), 0).pc == Construct(c) && Run(1, t).slots == s.slots;
  }

  /** The storage discipline holds in every run exactly when Capacity is at least 2. */
  lemma DisciplineIffCapacity<T(!new)>(cap: nat, v: T)
    requires cap > 0
    ensures (forall steps: seq<Step<T>> :: StorageDiscipline(Run(cap, steps))) <==> cap >= 2
  {
    if cap >= 2 {
      forall steps: seq<Step<T>> ensures StorageDiscipline(Run(cap, steps)) {
        StorageLifecycle(cap, steps, 0, 0, 0);
      }
    } else {
      CapacityOneOverwrites(v);
    }
  }

  // ----- rejection and retries -----

  /** A producer that loads the sequence of its remembered position gives up exactly when that
      position is head and all Capacity positions are claimed and not yet recycled. */
  lemma RejectsExactlyWhenFull<T>(cap: nat, steps: seq<Step<T>>, p: Pid, spurious: bool)
    requires cap >= 2 && Get(Run(cap, steps), p).pc.LoadSeq?
    ensures var s := Run(cap, steps);
            && Inv(s)
            && (Get(Next(s, Produce(p, spurious)), p).pc == Returned(false) <==>
                Get(s, p).pc.push.pos == s.head && |Queue(s)| == cap)
  {
    RunInv(cap, steps);
    var s := Run(cap, steps);
    assert ProducerOk(s, p);
    DiffSign(s, Get(s, p).pc.push.pos);
  }

  /** Every retry either is a spurious failure of the weak swap, and keeps the position, or
      moves to a strictly larger one. */
  lemma RetryAdvances<T>(cap: nat, steps: seq<Step<T>>, p: Pid, spurious: bool)
    requires cap >= 2
    requires var pc := Get(Run(cap, steps), p).pc; pc.Cas? || pc.Reload?
    ensures var s := Run(cap, steps);
            var pc, pc' := Get(s, p).pc, Get(Next(s, Produce(p, spurious)), p).pc;
            pc'.LoadSeq? ==>
              if pc.Cas? && s.head == pc.push.pos then spurious && pc'.push == pc.push
              else pc'.push.pos > pc.push.pos && pc'.push.retries == pc.push.retries + 1
  {
    RunInv(cap, steps);
    assert ProducerOk(Run(cap, steps), p);
  }

  /** The retries of a call number at most the positions that other producers have claimed since
      the call loaded head. */
  lemma RetriesPaidByOthers<T>(cap: nat, steps: seq<Step<T>>, p: Pid)
    requires cap >= 2
    requires var pc := Get(Run(cap, steps), p).pc; pc.LoadSeq? || pc.Cas? || pc.Reload?
    ensures var s := Run(cap, steps);
            var c := Get(s, p).pc.push;
            && c.start <= s.head == |s.claimed|
            && c.retries <= s.head - c.start
            && forall i :: c.start <= i < s.head ==> s.claimed[i].0 != p
  {
    RunInv(cap, steps);
    assert ProducerOk(Run(cap, steps), p);
  }
}
