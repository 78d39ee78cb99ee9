/**
 The lock-free multi-producer single-consumer ring buffer, as a machine whose every step is one
 atomic access of the source: a load, a compare-and-swap, a construct, a publish, a move-out, a
 recycle or the consumer's increment of its tail. Any number of producers and the one consumer
 interleave freely; a run is an arbitrary sequence of steps.

 Counters are unbounded here; RingWord relates them to wrapping 64-bit words.
 */
module RingMachine {

  type Pid = nat

  /** Storage without a live object, or with one. */
  datatype Cell<+T> = Raw | Full(value: T)

  datatype Slot<+T> = Slot(sequence: nat, storage: Cell<T>)

  /** The locals of one try_push: `start` is the head it first loaded and `retries` counts the
      loop iterations it began because of another producer; both are history. */
  datatype Push<+T> = Push(value: T, pos: nat, start: nat, retries: nat)

  /** The atomic access a producer performs next. */
  datatype ProducerPc<+T> =
    | Outside
    | LoadHead(arg: T)
    | LoadSeq(push: Push<T>)
    | Cas(push: Push<T>)
    | Reload(push: Push<T>)
    | Construct(push: Push<T>)
    | Publish(push: Push<T>)
    | Returned(ok: bool)

  /** A producer and, as history, the values for which its try_push returned true. */
  datatype Producer<+T> = Producer(pc: ProducerPc<T>, accepted: seq<T>)

  /** The atomic access the consumer performs next. */
  datatype ConsumerPc<+T> = CheckSeq | MoveOut | Recycle(out: T) | Advance(out: T)

  /** The shared memory, the threads, and two histories: who claimed which position with which
      value (in the order of the successful swaps of head), and what try_pop has returned. */
  datatype State<+T> = State(
    head: nat,
    tail: nat,
    slots: seq<Slot<T>>,
    producers: map<Pid, Producer<T>>,
    consumer: ConsumerPc<T>,
    claimed: seq<(Pid, T)>,
    popped: seq<T>)

  datatype Step<+T> =
    | Call(p: Pid, value: T)
    | Produce(p: Pid, spurious: bool)
    | Consume

  // ----- the machine -----

  function Init<T>(cap: nat): State<T> {
    State(0, 0, seq(cap, (i: nat) => Slot(i, Raw)), map[], CheckSeq, [], [])
  }

  function Get<T>(s: State<T>, p: Pid): Producer<T> {
    if p in s.producers then s.producers[p] else Producer(Outside, [])
  }

  function SetPc<T>(s: State<T>, p: Pid, pc: ProducerPc<T>): State<T> {
    s.(producers := s.producers[p := Get(s, p).(pc := pc)])
  }

  function Cap<T>(s: State<T>): nat { |s.slots| }

  function SlotAt<T>(s: State<T>, pos: nat): Slot<T>
    requires Cap(s) > 0
  {
    s.slots[pos % Cap(s)]
  }

  function SetSlot<T>(s: State<T>, pos: nat, slot: Slot<T>): State<T>
    requires Cap(s) > 0
  {
    s.(slots := s.slots[pos % Cap(s) := slot])
  }

  /** The next atomic access of producer p inside try_push. `spurious` lets the weak
      compare-and-swap fail although head still equals the expected value. */
  function ProduceStep<T>(s: State<T>, p: Pid, spurious: bool): State<T>
    requires Cap(s) > 0
  {
    match Get(s, p).pc
    case Outside => s
    case Returned(_) => s
    case LoadHead(v) => SetPc(s, p, LoadSeq(Push(v, s.head, s.head, 0)))
    case LoadSeq(c) =>
      var diff := SlotAt(s, c.pos).sequence - c.pos;
      if diff == 0 then SetPc(s, p, Cas(c))
      else if diff < 0 then SetPc(s, p, Returned(false))
      else SetPc(s, p, Reload(c))
    case Cas(c) =>
      if s.head == c.pos && !spurious then
        SetPc(s, p, Construct(c)).(head := c.pos + 1, claimed := s.claimed + [(p, c.value)])
      else if s.head == c.pos then SetPc(s, p, LoadSeq(c))
      else SetPc(s, p, LoadSeq(c.(pos := s.head, retries := c.retries + 1)))
    case Reload(c) => SetPc(s, p, LoadSeq(c.(pos := s.head, retries := c.retries + 1)))
    case Construct(c) =>
      SetPc(SetSlot(s, c.pos, SlotAt(s, c.pos).(storage := Full(c.value))), p, Publish(c))
    case Publish(c) =>
      var s' := SetSlot(s, c.pos, SlotAt(s, c.pos).(sequence := c.pos + 1));
      s'.(producers := s.producers[p := Producer(Returned(true), Get(s, p).accepted + [c.value])])
  }

  /** The next atomic access of the consumer inside try_pop; a failed check returns nothing and
      leaves the state as it was. */
  function ConsumeStep<T>(s: State<T>): State<T>
    requires Cap(s) > 0
  {
    match s.consumer
    case CheckSeq =>
      if SlotAt(s, s.tail).sequence - (s.tail + 1) == 0 then s.(consumer := MoveOut) else s
    case MoveOut =>
      if SlotAt(s, s.tail).storage.Full? then
        SetSlot(s, s.tail, SlotAt(s, s.tail).(storage := Raw))
          .(consumer := Recycle(SlotAt(s, s.tail).storage.value))
      else s
    case Recycle(v) =>
      SetSlot(s, s.tail, SlotAt(s, s.tail).(sequence := s.tail + Cap(s))).(consumer := Advance(v))
    case Advance(v) =>
      s.(tail := s.tail + 1, consumer := CheckSeq, popped := s.popped + [v])
  }

  predicate CanCall<T>(s: State<T>, p: Pid) {
    Get(s, p).pc.Outside? || Get(s, p).pc.Returned?
  }

  /** One step of any thread; a step that is not enabled leaves the state alone. */
  function Next<T>(s: State<T>, step: Step<T>): (s': State<T>)
    requires Cap(s) > 0
    ensures Cap(s') == Cap(s)
  {
    match step
    case Call(p, v) => if CanCall(s, p) then SetPc(s, p, LoadHead(v)) else s
    case Produce(p, spurious) => ProduceStep(s, p, spurious)
    case Consume => ConsumeStep(s)
  }

  function Run<T>(cap: nat, steps: seq<Step<T>>): (s: State<T>)
    requires cap > 0
    ensures Cap(s) == cap
  {
    if steps == [] then Init(cap)
    else Next(Run(cap, steps[..|steps| - 1]), steps[|steps| - 1])
  }

  // ----- what a state means -----

  /** The number of recycled positions: it moves at the release store, one step before tail. */
  function LogicalTail<T>(s: State<T>): nat {
    s.tail + if s.consumer.Advance? then 1 else 0
  }

  function Values<T>(c: seq<(Pid, T)>): (r: seq<T>)
    ensures |r| == |c|
  {
    seq(|c|, i requires 0 <= i < |c| => c[i].1)
  }

  /** The bounded queue that the state stands for. */
  function Queue<T>(s: State<T>): seq<T>
    requires LogicalTail(s) <= |s.claimed|
  {
    Values(s.claimed[LogicalTail(s)..])
  }

  /** The values claimed by p, in order. */
  function By<T>(c: seq<(Pid, T)>, p: Pid): seq<T> {
    if c == [] then []
    else By(c[..|c| - 1], p) + if c[|c| - 1].0 == p then [c[|c| - 1].1] else []
  }

  /** p has claimed pos and not yet published it. */
  predicate Owns<T>(s: State<T>, p: Pid, pos: nat) {
    var pc := Get(s, p).pc;
    (pc.Construct? || pc.Publish?) && pc.push.pos == pos
  }

  /** The value that p has claimed a position for but not yet published. */
  function Pending<T>(s: State<T>, p: Pid): seq<T> {
    var pc := Get(s, p).pc;
    if pc.Construct? || pc.Publish? then [pc.push.value] else []
  }

  // ----- the inductive invariant -----

  ghost predicate CountersOk<T>(s: State<T>) {
    && Cap(s) >= 2
    && |s.claimed| == s.head
    && LogicalTail(s) <= s.head <= LogicalTail(s) + Cap(s)
  }

  ghost predicate ConsumerOk<T>(s: State<T>)
    requires CountersOk(s)
  {
    && s.popped == Values(s.claimed[..s.tail])
    && (!s.consumer.CheckSeq? ==> s.tail < s.head)
    && (s.consumer.MoveOut? || s.consumer.Recycle? ==> SlotAt(s, s.tail).sequence == s.tail + 1)
    && (s.consumer.Recycle? || s.consumer.Advance? ==> s.consumer.out == s.claimed[s.tail].1)
  }

  /** The storage a published position must hold: its value, unless the consumer has just moved
      it out and has not recycled the slot yet. */
  function Published<T>(s: State<T>, pos: nat): Cell<T>
    requires pos < |s.claimed|
  {
    if pos == s.tail && s.consumer.Recycle? then Raw else Full(s.claimed[pos].1)
  }

  /** The slot of a position inside the window of Cap positions from the logical tail: free and
      raw; claimed and owned by a producer on its way to publish; or published. */
  ghost predicate SlotOk<T>(s: State<T>, pos: nat)
    requires CountersOk(s)
  {
    var slot := SlotAt(s, pos);
    if pos >= s.head then slot == Slot(pos, Raw)
    else
      || (slot.sequence == pos && Owns(s, s.claimed[pos].0, pos))
      || slot == Slot(pos + 1, Published(s, pos))
  }

  ghost predicate PushOk<T>(s: State<T>, p: Pid, c: Push<T>)
    requires CountersOk(s)
  {
    && c.start <= c.pos <= s.head
    && c.retries <= c.pos - c.start
    && (forall i :: c.start <= i < s.head ==> s.claimed[i].0 != p)
  }

  ghost predicate ProducerOk<T>(s: State<T>, p: Pid)
    requires CountersOk(s)
  {
    && By(s.claimed, p) == Get(s, p).accepted + Pending(s, p)
    && match Get(s, p).pc
       case LoadSeq(c) => PushOk(s, p, c)
       case Cas(c) => PushOk(s, p, c) && c.pos < LogicalTail(s) + Cap(s)
       case Reload(c) => PushOk(s, p, c) && c.pos < s.head
       case Construct(c) =>
         && LogicalTail(s) <= c.pos < s.head
         && s.claimed[c.pos] == (p, c.value)
         && SlotAt(s, c.pos) == Slot(c.pos, Raw)
       case Publish(c) =>
         && LogicalTail(s) <= c.pos < s.head
         && s.claimed[c.pos] == (p, c.value)
         && SlotAt(s, c.pos) == Slot(c.pos, Full(c.value))
       case _ => true
  }

  ghost predicate Inv<T>(s: State<T>) {
    && CountersOk(s)
    && ConsumerOk(s)
    && (forall pos: nat | LogicalTail(s) <= pos < LogicalTail(s) + Cap(s) :: SlotOk(s, pos))
    && (forall p: Pid :: ProducerOk(s, p))
  }

  // ----- arithmetic of the slot index -----

  lemma MulBound(cap: nat, d: int)
    requires cap > 0
    ensures d >= 1 ==> cap * d >= cap
    ensures d <= 0 ==> cap * d <= 0
    ensures d <= -1 ==> cap * d + cap <= 0
  {
    if d >= 1 { assert cap * d == cap + cap * (d - 1); }
  }

  lemma ModUnique(x: nat, cap: nat, q: nat, r: nat)
    requires 0 < cap && x == cap * q + r && r < cap
    ensures x % cap == r
  {
    var d := x / cap - q;
    assert cap * d == r - x % cap;
    MulBound(cap, d);
  }

  lemma IndexDistinct(a: nat, b: nat, cap: nat)
    requires 0 < cap && a < b < a + cap
    ensures a % cap != b % cap
  {
    var d := b / cap - a / cap;
    assert b - a == cap * d + (b % cap - a % cap);
    MulBound(cap, d);
  }

  lemma IndexWraps(a: nat, cap: nat)
    requires 0 < cap
    ensures (a + cap) % cap == a % cap
  {
    assert a + cap == cap * (a / cap + 1) + a % cap;
    ModUnique(a + cap, cap, a / cap + 1, a % cap);
  }

  /** Writing the slot of one position leaves the slots of the rest of the window alone. */
  lemma OtherSlot<T>(s: State<T>, q: nat, slot: Slot<T>, pos: nat)
    requires Cap(s) > 0 && q != pos && q < pos + Cap(s) && pos < q + Cap(s)
    ensures SlotAt(SetSlot(s, q, slot), pos) == SlotAt(s, pos)
  {
    if q < pos { IndexDistinct(q, pos, Cap(s)); } else { IndexDistinct(pos, q, Cap(s)); }
  }

  /** Every position below the window shares its slot with a later position of the window. */
  lemma InWindow(pos: nat, lo: nat, cap: nat) returns (q: nat)
    requires 0 < cap && pos < lo + cap
    ensures pos <= q && lo <= q < lo + cap && q % cap == pos % cap
    decreases lo + cap - pos
  {
    if pos >= lo { q := pos; }
    else {
      IndexWraps(pos, cap);
      q := InWindow(pos + cap, lo, cap);
    }
  }

  lemma ByAppend<T>(c: seq<(Pid, T)>, x: (Pid, T), p: Pid)
    ensures By(c + [x], p) == By(c, p) + if x.0 == p then [x.1] else []
  {
    assert (c + [x])[..|c|] == c;
  }

  // ----- every step keeps the invariant -----

  /** In the window a slot's sequence is its position, or one more once it is published. */
  lemma WindowSequence<T>(s: State<T>, pos: nat)
    requires Inv(s) && LogicalTail(s) <= pos < LogicalTail(s) + Cap(s)
    ensures var n := SlotAt(s, pos).sequence;
            n == pos || (n == pos + 1 && pos < s.head)
  {
    assert SlotOk(s, pos);
  }

  lemma StaleSequence<T>(s: State<T>, pos: nat)
    requires Inv(s) && pos < LogicalTail(s)
    ensures SlotAt(s, pos).sequence > pos
  {
    var q := InWindow(pos, LogicalTail(s), Cap(s));
    assert SlotAt(s, q) == SlotAt(s, pos);
    WindowSequence(s, q);
  }

  lemma FullSequence<T>(s: State<T>)
    requires Inv(s) && s.head == LogicalTail(s) + Cap(s)
    ensures SlotAt(s, s.head).sequence < s.head
  {
    var lo := LogicalTail(s);
    IndexWraps(lo, Cap(s));
    assert SlotAt(s, lo) == SlotAt(s, s.head);
    WindowSequence(s, lo);
  }

  /** What the signed difference computed by try_push tells, for any remembered position. */
  lemma DiffSign<T>(s: State<T>, pos: nat)
    requires Inv(s) && pos <= s.head
    ensures SlotAt(s, pos).sequence < pos <==> pos == LogicalTail(s) + Cap(s)
    ensures SlotAt(s, pos).sequence == pos ==> LogicalTail(s) <= pos < LogicalTail(s) + Cap(s)
    ensures SlotAt(s, pos).sequence > pos ==> pos < s.head
  {
    if pos == LogicalTail(s) + Cap(s) { FullSequence(s); }
    else if pos < LogicalTail(s) { StaleSequence(s, pos); }
    else { WindowSequence(s, pos); }
  }

  /** A step that only moves a producer between program points that own no slot. */
  lemma LocalStep<T>(s: State<T>, p: Pid, pc: ProducerPc<T>)
    requires Inv(s)
    requires !Get(s, p).pc.Construct? && !Get(s, p).pc.Publish?
    requires pc.Outside? || pc.LoadHead? || pc.LoadSeq? || pc.Cas? || pc.Reload? || pc.Returned?
    requires pc.LoadSeq? || pc.Cas? || pc.Reload? ==> PushOk(s, p, pc.push)
    requires pc.Cas? ==> pc.push.pos < LogicalTail(s) + Cap(s)
    requires pc.Reload? ==> pc.push.pos < s.head
    ensures Inv(SetPc(s, p, pc))
  {
    var s' := SetPc(s, p, pc);
    forall pos: nat | LogicalTail(s') <= pos < LogicalTail(s') + Cap(s') ensures SlotOk(s', pos) {
      assert SlotOk(s, pos);
    }
    LocalProducers(s, p, pc);
  }

  lemma LocalProducers<T>(s: State<T>, p: Pid, pc: ProducerPc<T>)
    requires Inv(s)
    requires !Get(s, p).pc.Construct? && !Get(s, p).pc.Publish?
    requires pc.Outside? || pc.LoadHead? || pc.LoadSeq? || pc.Cas? || pc.Reload? || pc.Returned?
    requires pc.LoadSeq? || pc.Cas? || pc.Reload? ==> PushOk(s, p, pc.push)
    requires pc.Cas? ==> pc.push.pos < LogicalTail(s) + Cap(s)
    requires pc.Reload? ==> pc.push.pos < s.head
    ensures forall q: Pid :: ProducerOk(SetPc(s, p, pc), q)
  {
    var s' := SetPc(s, p, pc);
    assert ProducerOk(s', p) by { assert ProducerOk(s, p); }
    forall q: Pid | q != p ensures ProducerOk(s', q) {
      assert ProducerOk(s, q);
      assert Get(s', q) == Get(s, q);
    }
  }

  lemma ClaimStep<T>(s: State<T>, p: Pid)
    requires Inv(s) && Get(s, p).pc.Cas? && Get(s, p).pc.push.pos == s.head
    ensures Inv(ProduceStep(s, p, false))
  {
    var c := Get(s, p).pc.push;
    var s' := ProduceStep(s, p, false);
    assert ProducerOk(s, p);
    assert s'.claimed[..s'.tail] == s.claimed[..s.tail];
    forall pos: nat | LogicalTail(s') <= pos < LogicalTail(s') + Cap(s') ensures SlotOk(s', pos) {
      assert SlotOk(s, pos);
    }
    forall q: Pid ensures ProducerOk(s', q) {
      assert ProducerOk(s, q);
      ByAppend(s.claimed, (p, c.value), q);
      assert SlotOk(s, c.pos);
    }
  }

  lemma ConstructStep<T>(s: State<T>, p: Pid)
    requires Inv(s) && Get(s, p).pc.Construct?
    ensures Inv(ProduceStep(s, p, false))
  {
    var c := Get(s, p).pc.push;
    var s' := ProduceStep(s, p, false);
    var slot := SlotAt(s, c.pos).(storage := Full(c.value));
    assert ProducerOk(s, p);
    assert SlotAt(s', c.pos) == slot;
    forall pos: nat | LogicalTail(s) <= pos < LogicalTail(s) + Cap(s) && pos != c.pos
      ensures SlotAt(s', pos) == SlotAt(s, pos)
    {
      OtherSlot(s, c.pos, slot, pos);
    }
    forall pos: nat | LogicalTail(s') <= pos < LogicalTail(s') + Cap(s') ensures SlotOk(s', pos) {
      assert SlotOk(s, pos);
    }
    forall q: Pid ensures ProducerOk(s', q) {
      assert ProducerOk(s, q);
    }
  }

  lemma PublishStep<T>(s: State<T>, p: Pid)
    requires Inv(s) && Get(s, p).pc.Publish?
    ensures Inv(ProduceStep(s, p, false))
  {
    var c := Get(s, p).pc.push;
    var s' := ProduceStep(s, p, false);
    var slot := SlotAt(s, c.pos).(sequence := c.pos + 1);
    assert ProducerOk(s, p);
    assert SlotAt(s', c.pos) == slot;
    forall pos: nat | LogicalTail(s) <= pos < LogicalTail(s) + Cap(s) && pos != c.pos
      ensures SlotAt(s', pos) == SlotAt(s, pos)
    {
      OtherSlot(s, c.pos, slot, pos);
    }
    forall pos: nat | LogicalTail(s') <= pos < LogicalTail(s') + Cap(s') ensures SlotOk(s', pos) {
      assert SlotOk(s, pos);
    }
    PublishKeepsProducers(s, p);
  }

  lemma PublishKeepsProducers<T>(s: State<T>, p: Pid)
    requires Inv(s) && Get(s, p).pc.Publish?
    ensures forall q: Pid :: ProducerOk(ProduceStep(s, p, false), q)
  {
    var s' := ProduceStep(s, p, false);
    assert ProducerOk(s, p);
    forall q: Pid ensures ProducerOk(s', q) { assert ProducerOk(s, q); }
  }

  lemma LoadSeqStep<T>(s: State<T>, p: Pid)
    requires Inv(s) && Get(s, p).pc.LoadSeq?
    ensures Inv(ProduceStep(s, p, false)) && ProduceStep(s, p, true) == ProduceStep(s, p, false)
  {
    assert ProducerOk(s, p);
    var c := Get(s, p).pc.push;
    DiffSign(s, c.pos);
    var diff := SlotAt(s, c.pos).sequence - c.pos;
    if diff == 0 { LocalStep(s, p, Cas(c)); }
    else if diff < 0 { LocalStep(s, p, Returned(false)); }
    else { LocalStep(s, p, Reload(c)); }
  }

  lemma ProduceKeepsInv<T>(s: State<T>, p: Pid, spurious: bool)
    requires Inv(s)
    ensures Inv(ProduceStep(s, p, spurious))
  {
    assert ProducerOk(s, p);
    match Get(s, p).pc
    case Outside =>
    case Returned(_) =>
    case LoadHead(v) => LocalStep(s, p, LoadSeq(Push(v, s.head, s.head, 0)));
    case LoadSeq(c) => LoadSeqStep(s, p);
    case Cas(c) =>
      if s.head == c.pos && !spurious { ClaimStep(s, p); }
      else if s.head == c.pos { LocalStep(s, p, LoadSeq(c)); }
      else { LocalStep(s, p, LoadSeq(c.(pos := s.head, retries := c.retries + 1))); }
    case Reload(c) => LocalStep(s, p, LoadSeq(c.(pos := s.head, retries := c.retries + 1)));
    case Construct(c) => ConstructStep(s, p);
    case Publish(c) => PublishStep(s, p);
  }

  lemma MoveOutStep<T>(s: State<T>)
    requires Inv(s) && s.consumer.MoveOut?
    ensures Inv(ConsumeStep(s))
  {
    assert SlotOk(s, s.tail);
    var slot := SlotAt(s, s.tail).(storage := Raw);
    var s' := ConsumeStep(s);
    assert SlotAt(s', s.tail) == slot;
    forall pos: nat | LogicalTail(s) <= pos < LogicalTail(s) + Cap(s) && pos != s.tail
      ensures SlotAt(s', pos) == SlotAt(s, pos)
    {
      OtherSlot(s, s.tail, slot, pos);
    }
    forall pos: nat | LogicalTail(s') <= pos < LogicalTail(s') + Cap(s') ensures SlotOk(s', pos) {
      assert SlotOk(s, pos);
    }
    forall q: Pid ensures ProducerOk(s', q) {
      assert ProducerOk(s, q);
    }
  }

  lemma RecycleStep<T>(s: State<T>)
    requires Inv(s) && s.consumer.Recycle?
    ensures Inv(ConsumeStep(s))
  {
    assert SlotOk(s, s.tail);
    var slot := SlotAt(s, s.tail).(sequence := s.tail + Cap(s));
    var s' := ConsumeStep(s);
    IndexWraps(s.tail, Cap(s));
    assert SlotAt(s', s.tail + Cap(s)) == slot;
    forall pos: nat | LogicalTail(s) <= pos < LogicalTail(s) + Cap(s) && pos != s.tail
      ensures SlotAt(s', pos) == SlotAt(s, pos)
    {
      OtherSlot(s, s.tail, slot, pos);
    }
    forall pos: nat | LogicalTail(s') <= pos < LogicalTail(s') + Cap(s') ensures SlotOk(s', pos) {
      if pos < s.tail + Cap(s) { assert SlotOk(s, pos); }
    }
    forall q: Pid ensures ProducerOk(s', q) {
      assert ProducerOk(s, q);
    }
  }

  lemma AdvanceStep<T>(s: State<T>)
    requires Inv(s) && s.consumer.Advance?
    ensures Inv(ConsumeStep(s))
  {
    var s' := ConsumeStep(s);
    assert s.claimed[..s'.tail] == s.claimed[..s.tail] + [s.claimed[s.tail]];
    forall pos: nat | LogicalTail(s') <= pos < LogicalTail(s') + Cap(s') ensures SlotOk(s', pos) {
      assert SlotOk(s, pos);
    }
    forall q: Pid ensures ProducerOk(s', q) {
      assert ProducerOk(s, q);
    }
  }

  lemma CheckStep<T>(s: State<T>)
    requires Inv(s) && s.consumer.CheckSeq?
    ensures Inv(ConsumeStep(s))
    ensures ConsumeStep(s).consumer.MoveOut? <==>
            s.tail < s.head && !Owns(s, s.claimed[s.tail].0, s.tail)
  {
    var s' := ConsumeStep(s);
    assert SlotOk(s, s.tail);
    if s.tail < s.head { assert ProducerOk(s, s.claimed[s.tail].0); }
    forall pos: nat | LogicalTail(s') <= pos < LogicalTail(s') + Cap(s') ensures SlotOk(s', pos) {
      assert SlotOk(s, pos);
    }
    forall q: Pid ensures ProducerOk(s', q) {
      assert ProducerOk(s, q);
    }
  }

  lemma NextKeepsInv<T>(s: State<T>, step: Step<T>)
    requires Inv(s)
    ensures Inv(Next(s, step))
  {
    match step
    case Call(p, v) => if CanCall(s, p) { LocalStep(s, p, LoadHead(v)); }
    case Produce(p, spurious) => ProduceKeepsInv(s, p, spurious);
    case Consume =>
      match s.consumer
      case CheckSeq => CheckStep(s);
      case MoveOut => MoveOutStep(s);
      case Recycle(_) => RecycleStep(s);
      case Advance(_) => AdvanceStep(s);
  }

  lemma InitInv<T>(cap: nat)
    requires cap >= 2
    ensures Inv(Init<T>(cap))
  {
    var s := Init<T>(cap);
    forall pos: nat | LogicalTail(s) <= pos < LogicalTail(s) + Cap(s) ensures SlotOk(s, pos) {
      ModUnique(pos, cap, 0, pos);
    }
  }

  lemma {:induction false} RunInv<T>(cap: nat, steps: seq<Step<T>>)
    requires cap >= 2
    ensures Inv(Run(cap, steps))
  {
    if steps == [] { InitInv<T>(cap); }
    else {
      RunInv(cap, steps[..|steps| - 1]);
      NextKeepsInv(Run(cap, steps[..|steps| - 1]), steps[|steps| - 1]);
    }
  }
}
