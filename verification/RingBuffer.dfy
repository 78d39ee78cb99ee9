/**
 The ring buffer as the source's class: an array of slots updated in place, a shared head and the
 consumer's tail, all of them words. try_push and try_pop are the source's loop and branches over
 single atomic accesses; between any two accesses the other threads run as a schedule says. Every
 method is proved against the machine over words.
 */
module Ring {
  import opened Prelude
  import opened RingMachine
  import opened RingWord
  import Properties = RingProperties

  /** The step is not one of producer p's. */
  predicate NotOf<T>(p: Pid, step: Step<T>) {
    match step
    case Call(q, _) => q != p
    case Produce(q, _) => q != p
    case Consume => true
  }

  predicate Others<T>(p: Pid, steps: seq<Step<T>>) {
    forall i :: 0 <= i < |steps| ==> NotOf(p, steps[i])
  }

  predicate NoConsume<T>(steps: seq<Step<T>>) {
    forall i :: 0 <= i < |steps| ==> !steps[i].Consume?
  }

  lemma OthersLeaveProducer<T>(s: State<T>, step: Step<T>, p: Pid)
    requires Cap(s) > 0 && NotOf(p, step)
    ensures Get(WordNext(s, step), p) == Get(s, p)
  {
  }

  lemma ProducersLeaveConsumer<T>(s: State<T>, step: Step<T>)
    requires Cap(s) > 0 && !step.Consume?
    ensures var s' := WordNext(s, step);
            s'.consumer == s.consumer && s'.tail == s.tail && s'.popped == s.popped
  {
  }

  /** The signed difference of the front slot's sequence and tail + 1 is zero. */
  predicate FrontReady<T>(s: State<T>)
    requires Cap(s) > 0
  {
    Diff(WordSlotAt(s, s.tail).sequence, Trunc(s.tail + 1)) == 0
  }

  /** No producer lags by 2^62 or more before any of the steps. */
  ghost predicate LagFree<T>(cap: nat, steps: seq<Step<T>>)
    requires cap > 0
  {
    forall i :: 0 <= i < |steps| ==> LagOk(Run(cap, steps[..i]))
  }

  lemma WordCapacityAtLeastTwo(cap: nat)
    requires WordCapacity(cap)
    ensures cap >= 2
  {
    var k: nat :| 1 <= k <= 62 && cap == Pow2(k);
    Pow2Grows(1, k);
    assert Pow2(1) == 2;
  }

  /** What the other threads do around the accesses of one loop iteration of try_push, and
      whether its weak swap fails spuriously. */
  datatype Round<T> = Round(a: seq<Step<T>>, b: seq<Step<T>>, c: seq<Step<T>>, spurious: bool)

  /** The positions claimed and not yet recycled. */
  ghost function Outstanding<T>(s: State<T>): int { s.head - LogicalTail(s) }

  /** Nobody else runs, and no swap fails spuriously. */
  function QUIET<T>(): Round<T> { Round([], [], [], false) }

  function Spurious<T>(rounds: seq<Round<T>>): nat {
    if rounds == [] then 0
    else Spurious(rounds[..|rounds| - 1]) + if rounds[|rounds| - 1].spurious then 1 else 0
  }

  /** A call that goes round again counts it, unless the swap failed spuriously. */
  ghost predicate Retried<T>(was: Push<T>, now: Push<T>, round: Round<T>) {
    now.retries == was.retries + 1 || (round.spurious && now == was)
  }

  /** What one round adds to the history: the load of the sequence and nothing else if the call is
      rejected; the load and the swap or the reload of head if it goes round again; the load, the
      swap, the construct and the publish if it succeeds. */
  ghost predicate Traced<T>(p: Pid, round: Round<T>, done: Option<bool>, before: seq<Step<T>>, after: seq<Step<T>>) {
    var load := before + round.a + [Produce(p, false)];
    match done
    case Some(ok) =>
      if ok then
        after == load + round.b + [Produce(p, false)] + round.c + [Produce(p, false)] + round.c + [Produce(p, false)]
      else after == load
    case None => after == load + round.b + [Produce(p, false)] || after == load + round.b + [Produce(p, round.spurious)]
  }

  /** What several rounds add, of which only the last may answer; all are used if none does. The
      histories between the rounds are given. */
  ghost predicate TracedAll<T>(p: Pid, rounds: seq<Round<T>>, done: Option<bool>, histories: seq<seq<Step<T>>>) {
    && 0 < |histories| <= |rounds| + 1
    && (done.None? ==> |histories| == |rounds| + 1)
    && (done.Some? ==> |histories| > 1)
    && forall k :: 0 <= k < |histories| - 1 ==>
         Traced(p, rounds[k], if k == |histories| - 2 then done else None, histories[k], histories[k + 1])
  }

  /** In every history but a last one that answers, the call is in its loop. */
  ghost predicate InLoop<T>(cap: nat, p: Pid, done: Option<bool>, histories: seq<seq<Step<T>>>)
    requires cap > 0
  {
    forall k :: 0 <= k < |histories| && (done.None? || k < |histories| - 1) ==>
      Get(WordRun(cap, histories[k]), p).pc.LoadSeq?
  }

  lemma TracedMore<T>(cap: nat, p: Pid, rounds: seq<Round<T>>, i: nat, done: Option<bool>,
                      histories: seq<seq<Step<T>>>, after: seq<Step<T>>)
    requires cap > 0 && i < |rounds| && TracedAll(p, rounds[..i], None, histories) && InLoop(cap, p, None, histories)
    requires Traced(p, rounds[i], done, histories[i], after)
    requires done.None? ==> Get(WordRun(cap, after), p).pc.LoadSeq?
    ensures TracedAll(p, if done.None? then rounds[..i + 1] else rounds, done, histories + [after])
    ensures InLoop(cap, p, done, histories + [after])
    ensures Spurious(rounds[..i + 1]) == Spurious(rounds[..i]) + if rounds[i].spurious then 1 else 0
  {
    hide Traced, WordRun;
    assert rounds[..i + 1][..i] == rounds[..i];
    var all := histories + [after];
    forall k | 0 <= k < |all| - 1
      ensures Traced(p, rounds[k], if k == |all| - 2 then done else None, all[k], all[k + 1])
    {
      if k < i { assert Traced(p, rounds[..i][k], None, histories[k], histories[k + 1]); }
    }
  }

  lemma WordRunMore<T>(cap: nat, steps: seq<Step<T>>, step: Step<T>)
    requires cap > 0
    ensures WordRun(cap, steps + [step]) == WordNext(WordRun(cap, steps), step)
    ensures Run(cap, steps + [step]) == Next(Run(cap, steps), step)
  {
    assert (steps + [step])[..|steps|] == steps;
  }

  /** Where a call that runs alone stands after its load of the sequence. */
  lemma AloneLoads<T>(cap: nat, h: seq<Step<T>>, p: Pid, v: T)
    requires WordCapacity(cap) && cap > 0 && LagFree(cap, h + [Call(p, v)]) && CanCall(WordRun(cap, h), p)
    ensures var s := WordRun(cap, h + [Call(p, v)] + [Produce(p, false)] + [Produce(p, false)]);
            if Outstanding(Run(cap, h)) < cap then Get(s, p).pc.Cas? && Get(s, p).pc.push.pos == s.head
            else Get(s, p).pc == Returned(false)
  {
    hide Run, WordRun, LagFree, WordCapacity;
    AloneRefines(cap, h, p, v);
    WordCapacityAtLeastTwo(cap);
    RunInv(cap, h);
    WordRunMore(cap, h, Call(p, v));
    WordRunMore(cap, h + [Call(p, v)], Produce(p, false));
    WordRunMore(cap, h + [Call(p, v)] + [Produce(p, false)], Produce(p, false));
    AloneDecides(Run(cap, h), p, v);
  }

  lemma AloneDecides<T>(s: State<T>, p: Pid, v: T)
    requires Inv(s) && CanCall(s, p) && Cap(s) > 0
    ensures var s3 := Next(Next(Next(s, Call(p, v)), Produce(p, false)), Produce(p, false));
            if Outstanding(s) < Cap(s)
            then Get(Wrap(s3), p).pc.Cas? && Get(Wrap(s3), p).pc.push.pos == Wrap(s3).head
            else Get(Wrap(s3), p).pc == Returned(false)
  {
    var s1 := Next(s, Call(p, v));
    var s2 := Next(s1, Produce(p, false));
    NextKeepsInv(s, Call(p, v));
    NextKeepsInv(s1, Produce(p, false));
    assert Get(s2, p).pc == LoadSeq(Push(v, s.head, s.head, 0));
    DiffSign(s2, s2.head);
    assert s2.head == s.head && LogicalTail(s2) == LogicalTail(s) && Cap(s2) == Cap(s);
    assert s.head <= LogicalTail(s) + Cap(s);
  }

  /** Over the call, its load of head and its load of the sequence, words and counters agree. */
  lemma AloneRefines<T>(cap: nat, h: seq<Step<T>>, p: Pid, v: T)
    requires WordCapacity(cap) && cap > 0 && LagFree(cap, h + [Call(p, v)])
    requires CanCall(WordRun(cap, h), p)
    ensures CanCall(Run(cap, h), p)
    ensures var steps := h + [Call(p, v)] + [Produce(p, false)] + [Produce(p, false)];
            WordRun(cap, steps) == Wrap(Run(cap, steps))
  {
    WordCapacityAtLeastTwo(cap);
    var h1 := h + [Call(p, v)];
    var h2 := h1 + [Produce(p, false)];
    var steps := h2 + [Produce(p, false)];
    assert forall i :: 0 <= i < |h| ==> h[..i] == h1[..i];
    WordRunRefines(cap, h);
    var s := Run(cap, h);
    assert h1[..|h|] == h;
    assert Get(Wrap(s), p).pc == WrapPc(Get(s, p).pc);
    WordRunMore(cap, h, Call(p, v));
    WordRunMore(cap, h1, Produce(p, false));
    LagStays(s, p, v);
    forall i | 0 <= i < |steps| ensures LagOk(Run(cap, steps[..i])) {
      if i < |h1| { assert steps[..i] == h1[..i]; }
      else if i == |h1| { assert steps[..i] == h1; }
      else { assert steps[..i] == h2; }
    }
    WordRunRefines(cap, steps);
  }

  lemma LagStays<T>(s: State<T>, p: Pid, v: T)
    requires LagOk(s) && Cap(s) > 0 && CanCall(s, p)
    ensures var s1 := Next(s, Call(p, v)); LagOk(s1) && LagOk(Next(s1, Produce(p, false)))
  {
    var s1 := Next(s, Call(p, v));
    var s2 := Next(s1, Produce(p, false));
    forall q: Pid ensures q != p ==> Get(s1, q) == Get(s, q) && Get(s2, q) == Get(s, q) {
    }
    assert Get(s1, p).pc == LoadHead(v) && Get(s2, p).pc == LoadSeq(Push(v, s.head, s.head, 0));
    assert forall q: Pid ::
      var pc := Get(s, q).pc;
      pc.LoadSeq? || pc.Cas? ==> s.head < pc.push.pos + QUARTER;
  }

  /** Alone, one round answers: the outstanding positions decide. */
  lemma AloneIsOneRound<T>(cap: nat, h: seq<Step<T>>, p: Pid, v: T, done: Option<bool>, after: seq<Step<T>>)
    requires WordCapacity(cap) && cap > 0 && LagFree(cap, h + [Call(p, v)]) && CanCall(WordRun(cap, h), p)
    requires Traced(p, QUIET(), done, h + [Call(p, v)] + [Produce(p, false)], after)
    requires match done
             case None => Get(WordRun(cap, after), p).pc.LoadSeq?
             case Some(ok) => Get(WordRun(cap, after), p).pc == Returned(ok)
    ensures done == Some(Outstanding(Run(cap, h)) < cap)
  {
    hide WordRun, Run, LagFree, WordCapacity, Outstanding, CanCall, WordNext;
    var go: Step<T> := Produce(p, false);
    var start := h + [Call(p, v)] + [go];
    AloneLoads(cap, h, p, v);
    var t := start + [go];
    assert start + [] + [go] == t && t + [] + [go] == t + [go];
    WordRunMore(cap, t, go);
    WordRunMore(cap, t + [go], go);
    WordRunMore(cap, t + [go] + [go], go);
    assert t + [] + [go] + [] + [go] + [] + [go] == t + [go] + [go] + [go];
    AloneSwaps(WordRun(cap, t), p);
  }

  /** A swap that nobody is ahead of succeeds, and the call publishes and returns; a call that has
      returned stays so. */
  lemma AloneSwaps<T>(s: State<T>, p: Pid)
    requires Cap(s) > 0
    ensures var s1 := WordNext(s, Produce(p, false));
            var s3 := WordNext(WordNext(s1, Produce(p, false)), Produce(p, false));
            && (Get(s, p).pc.Cas? && Get(s, p).pc.push.pos == s.head ==>
                  !Get(s1, p).pc.LoadSeq? && Get(s3, p).pc == Returned(true))
            && (Get(s, p).pc.Returned? ==> Get(s1, p).pc == Get(s, p).pc == Get(s3, p).pc)
  {
  }

  predicate OthersRound<T>(p: Pid, r: Round<T>) {
    Others(p, r.a) && Others(p, r.b) && Others(p, r.c)
  }

  class RingBuffer<T> {
    var head: nat
    var tail: nat
    const slots: array<Slot<T>>
    // the scheduler's view of the threads, and the histories of the machine
    var producers: map<Pid, Producer<T>>
    var consumer: ConsumerPc<T>
    var claimed: seq<(Pid, T)>
    var popped: seq<T>
    ghost var history: seq<Step<T>>

    function Abs(): State<T>
      reads this, slots
    {
      State(head, tail, slots[..], producers, consumer, claimed, popped)
    }

    /** The object is in the state that its recorded steps lead to. */
    ghost predicate Valid()
      reads this, slots
    {
      WordCapacity(slots.Length) && slots.Length > 0 && Abs() == WordRun(slots.Length, history)
    }

    constructor (capacity: nat)
      requires WordCapacity(capacity)
      ensures Valid() && fresh(slots) && slots.Length == capacity && history == []
    {
      head, tail := 0, 0;
      slots := new Slot<T>[capacity](_ => Slot(0, Raw));
      producers, consumer, claimed, popped, history := map[], CheckSeq, [], [], [];
      new;
      for i := 0 to capacity
        modifies slots
        invariant forall j :: 0 <= j < i ==> slots[j] == Slot(j, Raw)
        invariant forall j :: i <= j < capacity ==> slots[j].storage.Raw?
      {
        slots[i] := slots[i].(sequence := i);
      }
      MaskInRange(0, capacity);
      assert slots[..] == Init<T>(capacity).slots;
    }

    /** What the object has delivered, in whatever interleaving it got here: the popped values are
        the first of the claimed ones, in the order of the successful swaps of head, and what came
        from a producer is a prefix of what its calls accepted. */
    lemma DeliversInOrder(p: Pid)
      requires Valid() && LagFree(slots.Length, history)
      ensures |popped| <= |claimed| && popped == Values(claimed[..|popped|])
      ensures By(claimed[..|popped|], p) <= Get(Abs(), p).accepted
      ensures head == |claimed| % 0x1_0000_0000_0000_0000 && tail == |popped| % 0x1_0000_0000_0000_0000
    {
      WordCapacityAtLeastTwo(slots.Length);
      WordRunRefines(slots.Length, history);
      Properties.FifoDelivery(slots.Length, history, p);
      hide Run, WordRun, By, LagFree, WordCapacity;
      var s := Run(slots.Length, history);
      assert Get(Wrap(s), p).accepted == Get(s, p).accepted;
    }

    /** Moves the threads and the histories along after the shared memory took a step. */
    method Record(step: Step<T>, next: State<T>)
      requires WordCapacity(slots.Length) && slots.Length > 0
      requires next == WordNext(WordRun(slots.Length, history), step)
      requires next.head == head && next.tail == tail && next.slots == slots[..]
      modifies this`producers, this`consumer, this`claimed, this`popped, this`history
      ensures Valid() && Abs() == next && history == old(history) + [step]
    {
      producers, consumer, claimed, popped :=
        next.producers, next.consumer, next.claimed, next.popped;
      assert (history + [step])[..|history|] == history;
      history := history + [step];
    }

    /** One atomic access of some thread. */
    method Perform(step: Step<T>)
      requires Valid()
      modifies this, slots
      ensures Valid() && history == old(history) + [step]
      ensures Abs() == WordNext(old(Abs()), step)
    {
      var next := WordNext(Abs(), step);
      head, tail := next.head, next.tail;
      forall i | 0 <= i < slots.Length { slots[i] := next.slots[i]; }
      assert slots[..] == next.slots;
      Record(step, next);
    }

    /** Threads other than producer p run. */
    method Interleave(p: Pid, steps: seq<Step<T>>)
      requires Valid() && Others(p, steps)
      modifies this, slots
      ensures Valid() && history == old(history) + steps
      ensures Get(Abs(), p) == old(Get(Abs(), p))
    {
      for k := 0 to |steps|
        invariant Valid() && history == old(history) + steps[..k]
        invariant Get(Abs(), p) == old(Get(Abs(), p))
      {
        OthersLeaveProducer(Abs(), steps[k], p);
        Perform(steps[k]);
      }
      assert steps[..|steps|] == steps;
    }

    /** Producers run. */
    method InterleaveProducers(steps: seq<Step<T>>)
      requires Valid() && NoConsume(steps)
      modifies this, slots
      ensures Valid() && history == old(history) + steps
      ensures consumer == old(consumer) && tail == old(tail) && popped == old(popped)
    {
      for k := 0 to |steps|
        invariant Valid() && history == old(history) + steps[..k]
        invariant consumer == old(consumer) && tail == old(tail) && popped == old(popped)
      {
        ProducersLeaveConsumer(Abs(), steps[k]);
        Perform(steps[k]);
      }
      assert steps[..|steps|] == steps;
    }

    /** The slot of a position, `pos & kMask`. */
    method SlotIndex(pos: nat) returns (i: nat)
      requires WordCapacity(slots.Length)
      ensures slots.Length > 0 && i == And(pos, slots.Length - 1) && i < slots.Length
    {
      MaskInRange(pos, slots.Length);
      i := And(pos, slots.Length - 1);
    }

    // ----- the atomic accesses of a producer -----

    method LoadHeadWord(p: Pid) returns (pos: nat)
      requires Valid() && (Get(Abs(), p).pc.LoadHead? || Get(Abs(), p).pc.Reload?)
      modifies this`producers, this`consumer, this`claimed, this`popped, this`history
      ensures Valid() && history == old(history) + [Produce(p, false)]
      ensures pos == head && Get(Abs(), p).accepted == old(Get(Abs(), p).accepted)
      ensures Get(Abs(), p).pc.LoadSeq? && Get(Abs(), p).pc.push.pos == pos
      ensures var pc := old(Get(Abs(), p).pc);
              Get(Abs(), p).pc.push.value == if pc.LoadHead? then pc.arg else pc.push.value
    {
      pos := head;
      Record(Produce(p, false), WordNext(Abs(), Produce(p, false)));
    }

    method LoadSequence(p: Pid, pos: nat) returns (n: nat)
      requires Valid() && Get(Abs(), p).pc.LoadSeq? && Get(Abs(), p).pc.push.pos == pos
      modifies this`producers, this`consumer, this`claimed, this`popped, this`history
      ensures Valid() && history == old(history) + [Produce(p, false)]
      ensures n == WordSlotAt(old(Abs()), pos).sequence
      ensures var was := old(Get(Abs(), p));
              Get(Abs(), p) == was.(pc := if Diff(n, pos) == 0 then Cas(was.pc.push)
                                          else if Diff(n, pos) < 0 then Returned(false)
                                          else Reload(was.pc.push))
    {
      var i := SlotIndex(pos);
      n := slots[i].sequence;
      Record(Produce(p, false), WordNext(Abs(), Produce(p, false)));
    }

    /** The weak compare-and-swap of head; on failure it reports the head it found. */
    method CompareExchangeHead(p: Pid, expected: nat, spurious: bool)
      returns (swapped: bool, found: nat)
      requires Valid() && Get(Abs(), p).pc.Cas? && Get(Abs(), p).pc.push.pos == expected
      modifies this`head, this`producers, this`consumer, this`claimed, this`popped, this`history
      ensures Valid() && history == old(history) + [Produce(p, spurious)]
      ensures swapped == (old(head) == expected && !spurious) && found == old(head)
      ensures Get(Abs(), p).accepted == old(Get(Abs(), p).accepted)
      ensures var push, pc := old(Get(Abs(), p).pc.push), Get(Abs(), p).pc;
              if swapped then pc == Construct(push)
              else pc.LoadSeq? && pc.push.pos == found && pc.push.value == push.value
    {
      var next := WordNext(Abs(), Produce(p, spurious));
      swapped, found := head == expected && !spurious, head;
      if swapped { head := Trunc(expected + 1); }
      Record(Produce(p, spurious), next);
    }

    method ConstructAt(p: Pid, pos: nat, value: T)
      requires Valid() && Get(Abs(), p).pc.Construct?
      requires Get(Abs(), p).pc.push.pos == pos && Get(Abs(), p).pc.push.value == value
      modifies slots, this`producers, this`consumer, this`claimed, this`popped, this`history
      ensures Valid() && history == old(history) + [Produce(p, false)]
      ensures Get(Abs(), p) == old(Get(Abs(), p)).(pc := Publish(old(Get(Abs(), p).pc.push)))
    {
      var next := WordNext(Abs(), Produce(p, false));
      var i := SlotIndex(pos);
      slots[i] := slots[i].(storage := Full(value));
      assert slots[..] == next.slots;
      Record(Produce(p, false), next);
    }

    method StoreSequence(p: Pid, pos: nat)
      requires Valid() && Get(Abs(), p).pc.Publish? && Get(Abs(), p).pc.push.pos == pos
      modifies slots, this`producers, this`consumer, this`claimed, this`popped, this`history
      ensures Valid() && history == old(history) + [Produce(p, false)]
      ensures var was := old(Get(Abs(), p));
              Get(Abs(), p) == Producer(Returned(true), was.accepted + [was.pc.push.value])
    {
      var next := WordNext(Abs(), Produce(p, false));
      var i := SlotIndex(pos);
      slots[i] := slots[i].(sequence := Trunc(pos + 1));
      assert slots[..] == next.slots;
      Record(Produce(p, false), next);
    }

    // ----- try_push -----

    /** A claimed position is written and published, with others running before each access. */
    method Fill(p: Pid, pos: nat, value: T, others: seq<Step<T>>)
      requires Valid() && Get(Abs(), p).pc.Construct? && Others(p, others)
      requires Get(Abs(), p).pc.push.pos == pos && Get(Abs(), p).pc.push.value == value
      modifies this, slots
      ensures Valid()
      ensures history == old(history) + others + [Produce(p, false)] + others + [Produce(p, false)]
      ensures Get(Abs(), p) == Producer(Returned(true), old(Get(Abs(), p).accepted) + [value])
    {
      Interleave(p, others);
      ConstructAt(p, pos, value);
      Interleave(p, others);
      StoreSequence(p, pos);
    }

    /** The branch of a free slot: swap head, and if that succeeds write and publish. */
    method Claim(p: Pid, pos: nat, value: T, round: Round<T>) returns (done: bool, found: nat)
      requires Valid() && OthersRound(p, round) && Get(Abs(), p).pc.Cas?
      requires Get(Abs(), p).pc.push.pos == pos && Get(Abs(), p).pc.push.value == value
      modifies this, slots
      ensures Valid() && (done ==> !round.spurious)
      ensures var swap := old(history) + round.b + [Produce(p, round.spurious)];
              history == if done then swap + round.c + [Produce(p, false)] + round.c + [Produce(p, false)] else swap
      ensures var was, now := old(Get(Abs(), p)), Get(Abs(), p);
              if done then now == Producer(Returned(true), was.accepted + [value])
              else
                && now.pc.LoadSeq? && now.pc.push.pos == found && now.pc.push.value == value
                && now.accepted == was.accepted && Retried(was.pc.push, now.pc.push, round)
    {
      Interleave(p, round.b);
      done, found := CompareExchangeHead(p, pos, round.spurious);
      if done { Fill(p, pos, value, round.c); }
    }

    /** One iteration of try_push's loop: the call returns, or goes round again with a position. It takes
        the round's steps and the call's own accesses in between, and no others. */
    method Attempt(p: Pid, pos: nat, value: T, round: Round<T>) returns (done: Option<bool>, next: nat)
      requires Valid() && OthersRound(p, round) && Get(Abs(), p).pc.LoadSeq?
      requires Get(Abs(), p).pc.push.pos == pos && Get(Abs(), p).pc.push.value == value
      modifies this, slots
      ensures Valid() && Traced(p, round, done, old(history), history)
      ensures var was, now := old(Get(Abs(), p)), Get(Abs(), p);
              match done
              case None =>
                && now.pc.LoadSeq? && now.pc.push.pos == next && now.pc.push.value == value
                && now.accepted == was.accepted && Retried(was.pc.push, now.pc.push, round)
              case Some(ok) =>
                now == Producer(Returned(ok), was.accepted + if ok then [value] else [])
    {
      Interleave(p, round.a);
      var n := LoadSequence(p, pos);
      var diff := Diff(n, pos);
      if diff == 0 {
        var claimed, found := Claim(p, pos, value, round);
        return if claimed then Some(true) else None, found;
      } else if diff < 0 {
        return Some(false), pos;
      } else {
        Interleave(p, round.b);
        next := LoadHeadWord(p);
        return None, next;
      }
    }

    /** The loop of try_push. A call that is still in it has been overtaken by another producer, or has
        met a spurious failure, in every round. */
    method PushLoop(p: Pid, first: nat, value: T, rounds: seq<Round<T>>)
      returns (result: Option<bool>, ghost histories: seq<seq<Step<T>>>)
      requires Valid() && Get(Abs(), p).pc.LoadSeq? && forall i :: 0 <= i < |rounds| ==> OthersRound(p, rounds[i])
      requires Get(Abs(), p).pc.push.pos == first && Get(Abs(), p).pc.push.value == value
      modifies this, slots
      ensures Valid() && TracedAll(p, rounds, result, histories) && InLoop(slots.Length, p, result, histories)
      ensures histories[0] == old(history) && histories[|histories| - 1] == history
      ensures var was, now := old(Get(Abs(), p)), Get(Abs(), p);
              match result
              case None =>
                && now.pc.LoadSeq? && now.accepted == was.accepted
                && now.pc.push.retries + Spurious(rounds) >= |rounds|
              case Some(ok) =>
                now == Producer(Returned(ok), was.accepted + if ok then [value] else [])
    {
      hide WordRun, Traced;
      var pos := first;
      histories := [history];
      for i := 0 to |rounds|
        invariant Valid() && |histories| == i + 1
        invariant TracedAll(p, rounds[..i], None, histories) && InLoop(slots.Length, p, None, histories)
        invariant histories[0] == old(history) && histories[i] == history
        invariant Get(Abs(), p).pc.LoadSeq? && Get(Abs(), p).accepted == old(Get(Abs(), p).accepted)
        invariant Get(Abs(), p).pc.push.pos == pos && Get(Abs(), p).pc.push.value == value
        invariant Get(Abs(), p).pc.push.retries + Spurious(rounds[..i]) >= i
      {
        var done, next := Attempt(p, pos, value, rounds[i]);
        TracedMore(slots.Length, p, rounds, i, done, histories, history);
        histories := histories + [history];
        if done.Some? { return done, histories; }
        pos := next;
      }
      assert rounds[..|rounds|] == rounds;
      return None, histories;
    }

    /** try_push, for as many iterations of its loop as the schedule has rounds: None if the call
        is still in its loop then. The history is the call, the load of head and one trace for each
        round, up to the one that answered. Alone, the call answers in the first round, and accepts
        exactly if fewer positions than the capacity are outstanding. */
    method TryPush(p: Pid, value: T, first: seq<Step<T>>, rounds: seq<Round<T>>)
      returns (result: Option<bool>, ghost histories: seq<seq<Step<T>>>)
      requires Valid() && CanCall(Abs(), p)
      requires Others(p, first) && forall i :: 0 <= i < |rounds| ==> OthersRound(p, rounds[i])
      modifies this, slots
      ensures Valid() && TracedAll(p, rounds, result, histories)
      ensures histories[0] == old(history) + [Call(p, value)] + first + [Produce(p, false)]
      ensures histories[|histories| - 1] == history
      ensures var was, now := old(Get(Abs(), p)), Get(Abs(), p);
              match result
              case None =>
                && now.pc.LoadSeq? && now.accepted == was.accepted
                && now.pc.push.retries + Spurious(rounds) >= |rounds|
              case Some(ok) =>
                now == Producer(Returned(ok), was.accepted + if ok then [value] else [])
      ensures first == [] && rounds != [] && rounds[0] == QUIET<T>()
              && LagFree(slots.Length, old(history) + [Call(p, value)])
              ==> result == Some(Outstanding(Run(slots.Length, old(history))) < slots.Length)
    {
      ghost var before := history;
      Record(Call(p, value), WordNext(Abs(), Call(p, value)));
      Interleave(p, first);
      var pos := LoadHeadWord(p);
      hide WordRun, Run, Traced, LagFree, Outstanding;
      result, histories := PushLoop(p, pos, value, rounds);
      if first == [] && rounds != [] && rounds[0] == QUIET<T>() && LagFree(slots.Length, before + [Call(p, value)]) {
        assert before + [Call(p, value)] + [] + [Produce(p, false)] == before + [Call(p, value)] + [Produce(p, false)];
        AloneIsOneRound(slots.Length, before, p, value, if |histories| == 2 then result else None, histories[1]);
      }
    }

    // ----- try_pop -----

    method CheckFront() returns (ready: bool)
      requires Valid() && consumer.CheckSeq?
      modifies this`producers, this`consumer, this`claimed, this`popped, this`history
      ensures Valid() && history == old(history) + [Consume] && popped == old(popped)
      ensures ready == FrontReady(old(Abs()))
      ensures consumer == if ready then MoveOut else CheckSeq
    {
      var i := SlotIndex(tail);
      var n := slots[i].sequence;
      ready := Diff(n, Trunc(tail + 1)) == 0;
      Record(Consume, WordNext(Abs(), Consume));
    }

    /** In a run without excessive lag the consumer that passed its check finds a live object. */
    lemma FindsObject()
      requires Valid() && LagFree(slots.Length, history) && consumer.MoveOut?
      ensures WordSlotAt(Abs(), tail).storage.Full?
    {
      WordRunRefines(slots.Length, history);
      MaskInRange(0, slots.Length);
      RunInv(slots.Length, history);
      var s := Run(slots.Length, history);
      assert SlotOk(s, s.tail);
      WrapSlots(s, s.tail);
    }

    method MoveAndDestroy() returns (value: T)
      requires Valid() && LagFree(slots.Length, history) && consumer.MoveOut?
      modifies slots, this`producers, this`consumer, this`claimed, this`popped, this`history
      ensures Valid() && consumer == Recycle(value)
      ensures history == old(history) + [Consume] && popped == old(popped)
    {
      FindsObject();
      var next := WordNext(Abs(), Consume);
      var i := SlotIndex(tail);
      value := slots[i].storage.value;
      slots[i] := slots[i].(storage := Raw);
      assert slots[..] == next.slots;
      Record(Consume, next);
    }

    method RecycleSlot(ghost value: T)
      requires Valid() && consumer == Recycle(value)
      modifies slots, this`producers, this`consumer, this`claimed, this`popped, this`history
      ensures Valid() && consumer == Advance(value)
      ensures history == old(history) + [Consume] && popped == old(popped)
    {
      var next := WordNext(Abs(), Consume);
      var i := SlotIndex(tail);
      slots[i] := slots[i].(sequence := Trunc(tail + slots.Length));
      assert slots[..] == next.slots;
      Record(Consume, next);
    }

    method AdvanceTail(ghost value: T)
      requires Valid() && consumer == Advance(value)
      modifies this`tail, this`producers, this`consumer, this`claimed, this`popped, this`history
      ensures Valid() && consumer.CheckSeq? && tail == Trunc(old(tail) + 1)
      ensures history == old(history) + [Consume] && popped == old(popped) + [value]
    {
      var next := WordNext(Abs(), Consume);
      tail := Trunc(tail + 1);
      Record(Consume, next);
    }

    /** The three accesses of try_pop after a successful check. */
    method TakeFront(b: seq<Step<T>>, c: seq<Step<T>>, d: seq<Step<T>>) returns (value: T)
      requires Valid() && consumer.MoveOut? && NoConsume(b) && NoConsume(c) && NoConsume(d)
      requires LagFree(slots.Length, history + b)
      modifies this, slots
      ensures Valid() && consumer.CheckSeq? && tail == Trunc(old(tail) + 1)
      ensures history == old(history) + b + [Consume] + c + [Consume] + d + [Consume]
      ensures popped == old(popped) + [value]
    {
      hide WordRun, Run, LagFree, WordCapacity;
      InterleaveProducers(b);
      value := MoveAndDestroy();
      InterleaveProducers(c);
      RecycleSlot(value);
      InterleaveProducers(d);
      AdvanceTail(value);
    }

    /** try_pop, with producers running between its accesses: it returns a value exactly when the
        front slot was published at the sequence load, and then tail has advanced by one. */
    method TryPop(a: seq<Step<T>>, b: seq<Step<T>>, c: seq<Step<T>>, d: seq<Step<T>>)
      returns (result: Option<T>)
      requires Valid() && consumer.CheckSeq?
      requires NoConsume(a) && NoConsume(b) && NoConsume(c) && NoConsume(d)
      requires LagFree(slots.Length, history + a + [Consume] + b)
      modifies this, slots
      ensures Valid() && consumer.CheckSeq?
      ensures result.Some? <==> FrontReady(WordRun(slots.Length, old(history) + a))
      ensures match result
              case None => history == old(history) + a + [Consume] && popped == old(popped)
              case Some(v) =>
                && history == old(history) + a + [Consume] + b + [Consume] + c + [Consume] + d + [Consume]
                && popped == old(popped) + [v] && tail == Trunc(old(tail) + 1)
    {
      InterleaveProducers(a);
      var ready := CheckFront();
      if !ready { return None; }
      assert history == old(history) + a + [Consume];
      var value := TakeFront(b, c, d);
      return Some(value);
    }
  }
}
