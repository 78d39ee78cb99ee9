/**
 The ring buffer as the source computes it: head, tail and the slot sequences are 64-bit words
 that wrap, the slot is chosen with a bit mask, and comparisons go through a two's-complement
 signed difference. Every branch agrees with the machine over unbounded counters.
 */
module RingWord {
  import opened RingMachine

  const WORD: nat := 0x1_0000_0000_0000_0000
  const HALF: nat := 0x8000_0000_0000_0000
  const QUARTER: nat := 0x4000_0000_0000_0000

  function Trunc(x: int): nat { x % WORD }

  /** The word x read as a signed integer. */
  function Signed(x: nat): int { if x < HALF then x else x - WORD }

  /** The signed difference of two words: a cast of each, and a subtraction that wraps. */
  function Diff(a: nat, b: nat): int { Signed(Trunc(Signed(a) - Signed(b))) }

  /** Bitwise conjunction. */
  function And(x: nat, y: nat): nat {
    if x == 0 || y == 0 then 0
    else 2 * And(x / 2, y / 2) + if x % 2 == 1 && y % 2 == 1 then 1 else 0
  }

  function Pow2(k: nat): nat {
    if k == 0 then 1 else 2 * Pow2(k - 1)
  }

  // ----- the machine over words -----

  function WordSlotAt<T>(s: State<T>, pos: nat): Slot<T>
    requires Cap(s) > 0
  {
    var i := And(pos, Cap(s) - 1);
    if i < Cap(s) then s.slots[i] else s.slots[0]
  }

  function WordSetSlot<T>(s: State<T>, pos: nat, slot: Slot<T>): State<T>
    requires Cap(s) > 0
  {
    var i := And(pos, Cap(s) - 1);
    if i < Cap(s) then s.(slots := s.slots[i := slot]) else s
  }

  function WordProduce<T>(s: State<T>, p: Pid, spurious: bool): State<T>
    requires Cap(s) > 0
  {
    match Get(s, p).pc
    case Outside => s
    case Returned(_) => s
    case LoadHead(v) => SetPc(s, p, LoadSeq(Push(v, s.head, |s.claimed|, 0)))
    case LoadSeq(c) =>
      var diff := Diff(WordSlotAt(s, c.pos).sequence, c.pos);
      if diff == 0 then SetPc(s, p, Cas(c))
      else if diff < 0 then SetPc(s, p, Returned(false))
      else SetPc(s, p, Reload(c))
    case Cas(c) =>
      if s.head == c.pos && !spurious then
        SetPc(s, p, Construct(c))
          .(head := Trunc(c.pos + 1), claimed := s.claimed + [(p, c.value)])
      else if s.head == c.pos then SetPc(s, p, LoadSeq(c))
      else SetPc(s, p, LoadSeq(c.(pos := s.head, retries := c.retries + 1)))
    case Reload(c) => SetPc(s, p, LoadSeq(c.(pos := s.head, retries := c.retries + 1)))
    case Construct(c) =>
      SetPc(WordSetSlot(s, c.pos, WordSlotAt(s, c.pos).(storage := Full(c.value))), p, Publish(c))
    case Publish(c) =>
      var s' := WordSetSlot(s, c.pos, WordSlotAt(s, c.pos).(sequence := Trunc(c.pos + 1)));
      s'.(producers := s.producers[p := Producer(Returned(true), Get(s, p).accepted + [c.value])])
  }

  function WordConsume<T>(s: State<T>): State<T>
    requires Cap(s) > 0
  {
    match s.consumer
    case CheckSeq =>
      if Diff(WordSlotAt(s, s.tail).sequence, Trunc(s.tail + 1)) == 0 then s.(consumer := MoveOut)
      else s
    case MoveOut =>
      if WordSlotAt(s, s.tail).storage.Full? then
        WordSetSlot(s, s.tail, WordSlotAt(s, s.tail).(storage := Raw))
          .(consumer := Recycle(WordSlotAt(s, s.tail).storage.value))
      else s
    case Recycle(v) =>
      WordSetSlot(s, s.tail, WordSlotAt(s, s.tail).(sequence := Trunc(s.tail + Cap(s))))
        .(consumer := Advance(v))
    case Advance(v) =>
      s.(tail := Trunc(s.tail + 1), consumer := CheckSeq, popped := s.popped + [v])
  }

  function WordNext<T>(s: State<T>, step: Step<T>): State<T>
    requires Cap(s) > 0
  {
    match step
    case Call(p, v) => if CanCall(s, p) then SetPc(s, p, LoadHead(v)) else s
    case Produce(p, spurious) => WordProduce(s, p, spurious)
    case Consume => WordConsume(s)
  }

  function WordRun<T>(cap: nat, steps: seq<Step<T>>): (s: State<T>)
    requires cap > 0
    ensures Cap(s) == cap
  {
    if steps == [] then Init(cap)
    else WordNext(WordRun(cap, steps[..|steps| - 1]), steps[|steps| - 1])
  }

  // ----- the words that stand for unbounded counters -----

  function WrapPush<T>(c: Push<T>): Push<T> { c.(pos := Trunc(c.pos)) }

  function WrapPc<T>(pc: ProducerPc<T>): ProducerPc<T> {
    match pc
    case LoadSeq(c) => LoadSeq(WrapPush(c))
    case Cas(c) => Cas(WrapPush(c))
    case Reload(c) => Reload(WrapPush(c))
    case Construct(c) => Construct(WrapPush(c))
    case Publish(c) => Publish(WrapPush(c))
    case _ => pc
  }

  function WrapSlot<T>(slot: Slot<T>): Slot<T> { slot.(sequence := Trunc(slot.sequence)) }

  /** Every counter of the shared memory and of the threads reduced to a word; the histories
      (`start`, `retries`, `claimed`, `popped`, `accepted`) are kept. */
  function Wrap<T>(s: State<T>): State<T> {
    State(
      Trunc(s.head), Trunc(s.tail),
      seq(|s.slots|, i requires 0 <= i < |s.slots| => WrapSlot(s.slots[i])),
      map p | p in s.producers :: s.producers[p].(pc := WrapPc(s.producers[p].pc)),
      s.consumer, s.claimed, s.popped)
  }

  /** No producer's remembered position lags head by 2^62 or more. */
  ghost predicate LagOk<T>(s: State<T>) {
    forall p: Pid ::
      var pc := Get(s, p).pc;
      pc.LoadSeq? || pc.Cas? ==> s.head < pc.push.pos + QUARTER
  }

  ghost predicate WordCapacity(cap: nat) {
    exists k: nat :: 1 <= k <= 62 && cap == Pow2(k)
  }

  // ----- arithmetic -----

  lemma {:induction false} MaskIsMod(x: nat, k: nat)
    ensures Pow2(k) > 0 && And(x, Pow2(k) - 1) == x % Pow2(k)
    decreases k
  {
    if k == 0 { }
    else {
      MaskIsMod(x / 2, k - 1);
      var h := Pow2(k - 1);
      assert (2 * h - 1) / 2 == h - 1;
      assert (2 * h - 1) % 2 == 1 by { assert 2 * h - 1 == 2 * (h - 1) + 1; }
      HalveMod(x, h);
    }
  }

  lemma HalveMod(x: nat, h: nat)
    requires h > 0
    ensures x % (2 * h) == 2 * ((x / 2) % h) + x % 2
  {
    var q, r := (x / 2) / h, 2 * ((x / 2) % h) + x % 2;
    assert x == 2 * (x / 2) + x % 2;
    assert x / 2 == h * q + (x / 2) % h;
    assert x == (2 * h) * q + r;
    ModUnique(x, 2 * h, q, r);
  }

  /** A capacity the masks work for, and its cofactor in the size of a word. */
  lemma Pow2Bounds(k: nat) returns (w: nat)
    requires 1 <= k <= 62
    ensures 2 <= Pow2(k) <= QUARTER && WORD == Pow2(k) * w
  {
    Pow2Grows(k, 62);
    Pow2Of62();
    w := Pow2(64 - k);
    Pow2Add(k, 64 - k);
    assert Pow2(64) == 2 * Pow2(63);
    Pow2Positive(k - 1);
  }

  lemma {:induction false} Pow2Positive(k: nat)
    ensures Pow2(k) >= 1
  {
    if k > 0 { Pow2Positive(k - 1); }
  }

  lemma {:induction false} Pow2Grows(j: nat, k: nat)
    requires j <= k
    ensures Pow2(j) <= Pow2(k)
  {
    Pow2Positive(j);
    if j < k { Pow2Grows(j, k - 1); }
  }

  lemma {:induction false} Pow2Add(j: nat, k: nat)
    ensures Pow2(j + k) == Pow2(j) * Pow2(k)
  {
    if j > 0 {
      Pow2Add(j - 1, k);
      assert Pow2(j + k) == 2 * Pow2(j + k - 1);
    }
  }

  lemma Pow2Of62()
    ensures Pow2(62) == QUARTER
  {
    Pow2Add(4, 4);
    Pow2Add(8, 8);
    assert Pow2(16) == 0x1_0000;
    Pow2Add(16, 16);
    assert Pow2(32) == 0x1_0000_0000;
    Pow2Add(8, 6);
    assert Pow2(14) == 0x4000;
    Pow2Add(16, 14);
    assert Pow2(30) == 0x4000_0000;
    Pow2Add(32, 30);
  }

  lemma DivMod(x: nat, m: nat)
    requires m > 0
    ensures x == m * (x / m) + x % m && x % m < m
  {
  }

  lemma RegroupedMod(x: nat, cap: nat, w: nat, q: nat, a: nat, r: nat)
    requires r < cap && x == (cap * w) * q + (cap * a + r)
    ensures x % cap == r
  {
    assert (cap * w) * q == cap * (w * q);
    assert cap * (w * q) + cap * a == cap * (w * q + a);
    ModUnique(x, cap, w * q + a, r);
  }

  lemma ModOfMod(x: nat, m: nat, w: nat, cap: nat)
    requires cap > 0 && m > 0 && m == cap * w
    ensures (x % m) % cap == x % cap
  {
    var r := x % m;
    DivMod(x, m);
    DivMod(r, cap);
    RegroupedMod(x, cap, w, x / m, r / cap, r % cap);
  }

  /** Truncation to a word does not change the slot index. */
  lemma IndexOfWord(pos: nat, cap: nat)
    requires WordCapacity(cap)
    ensures 2 <= cap <= QUARTER && And(Trunc(pos), cap - 1) == pos % cap
  {
    var k: nat :| 1 <= k <= 62 && cap == Pow2(k);
    var w := Pow2Bounds(k);
    MaskIsMod(Trunc(pos), k);
    ModOfMod(pos, WORD, w, cap);
  }

  /** The mask always selects a slot of the array. */
  lemma MaskInRange(pos: nat, cap: nat)
    requires WordCapacity(cap)
    ensures cap >= 2 && And(pos, cap - 1) == pos % cap < cap
  {
    var k: nat :| 1 <= k <= 62 && cap == Pow2(k);
    var w := Pow2Bounds(k);
    MaskIsMod(pos, k);
  }

  lemma TruncShift(x: nat, d: int)
    requires x + d >= 0
    ensures Trunc(Trunc(x) + d) == Trunc(x + d)
  {
  }

  lemma TruncPeriod(x: int, k: int)
    ensures Trunc(x - WORD * k) == Trunc(x)
  {
    var y := x - WORD * k;
    assert y == WORD * (x / WORD - k) + x % WORD;
  }

  lemma SignedIsCongruent(a: nat) returns (k: int)
    ensures Signed(Trunc(a)) == a - WORD * k
  {
    k := if Trunc(a) < HALF then a / WORD else a / WORD + 1;
  }

  /** The signed difference of two words is the difference of the counters they stand for, when
      those are less than 2^63 apart. */
  lemma DiffOfWords(a: nat, b: nat)
    requires a < b + 0x8000_0000_0000_0000 && b <= a + 0x8000_0000_0000_0000
    ensures Diff(a % 0x1_0000_0000_0000_0000, b % 0x1_0000_0000_0000_0000) == a - b
  {
    var j := SignedIsCongruent(a);
    var k := SignedIsCongruent(b);
    TruncPeriod(a - b, j - k);
    SignedOfTrunc(a - b);
  }

  lemma SignedOfTrunc(d: int)
    requires -(HALF as int) <= d < HALF
    ensures Signed(Trunc(d)) == d
  {
    if d < 0 { TruncPeriod(d, -1); }
  }

  /** Words tell two counters apart when those are less than 2^64 apart. */
  lemma TruncInjective(a: nat, b: nat)
    requires a <= b < a + WORD
    ensures Trunc(a) == Trunc(b) <==> a == b
  {
  }

  // ----- the simulation -----

  /** The sequence that a producer with a bounded lag compares its position to. */
  lemma SequenceNear<T>(s: State<T>, pos: nat)
    requires Inv(s) && pos <= s.head < pos + QUARTER && Cap(s) <= QUARTER
    ensures var n := SlotAt(s, pos).sequence; n < pos + HALF && pos <= n + HALF
  {
    var lo := LogicalTail(s);
    if pos == lo + Cap(s) {
      IndexWraps(lo, Cap(s));
      assert SlotAt(s, lo) == SlotAt(s, s.head);
      WindowSequence(s, lo);
    } else {
      var q := InWindow(pos, lo, Cap(s));
      assert SlotAt(s, q) == SlotAt(s, pos);
      WindowSequence(s, q);
    }
  }

  lemma WrapSlots<T>(s: State<T>, pos: nat)
    requires WordCapacity(Cap(s))
    ensures Cap(Wrap(s)) == Cap(s) && 2 <= Cap(s) <= QUARTER
    ensures And(Trunc(pos), Cap(s) - 1) == pos % Cap(s)
    ensures WordSlotAt(Wrap(s), Trunc(pos)) == WrapSlot(SlotAt(s, pos))
  {
    IndexOfWord(pos, Cap(s));
  }

  lemma WrapSet<T>(s: State<T>, pos: nat, slot: Slot<T>)
    requires WordCapacity(Cap(s))
    ensures Cap(s) >= 2
    ensures WordSetSlot(Wrap(s), Trunc(pos), WrapSlot(slot)) == Wrap(SetSlot(s, pos, slot))
  {
    WrapSlots(s, pos);
    var a, b := WordSetSlot(Wrap(s), Trunc(pos), WrapSlot(slot)), Wrap(SetSlot(s, pos, slot));
    assert a.slots == b.slots;
  }

  lemma WrapSetPc<T>(s: State<T>, p: Pid, pc: ProducerPc<T>)
    ensures SetPc(Wrap(s), p, WrapPc(pc)) == Wrap(SetPc(s, p, pc))
    ensures Get(Wrap(s), p) == Get(s, p).(pc := WrapPc(Get(s, p).pc))
  {
    var a, b := SetPc(Wrap(s), p, WrapPc(pc)), Wrap(SetPc(s, p, pc));
    assert a.producers == b.producers;
  }

  lemma LoadSeqCommutes<T>(s: State<T>, p: Pid)
    requires Inv(s) && LagOk(s) && WordCapacity(Cap(s)) && Get(s, p).pc.LoadSeq?
    ensures Cap(Wrap(s)) == Cap(s)
    ensures WordProduce(Wrap(s), p, false) == Wrap(ProduceStep(s, p, false))
  {
    assert ProducerOk(s, p);
    var c := Get(s, p).pc.push;
    WrapSetPc(s, p, LoadSeq(c));
    WrapSlots(s, c.pos);
    SequenceNear(s, c.pos);
    DiffOfWords(SlotAt(s, c.pos).sequence, c.pos);
    WrapSetPc(s, p, Cas(c));
    WrapSetPc(s, p, Returned(false));
    WrapSetPc(s, p, Reload(c));
  }

  lemma ClaimCommutes<T>(s: State<T>, p: Pid)
    requires Cap(s) > 0 && Get(s, p).pc.Cas? && Get(s, p).pc.push.pos == s.head
    ensures Cap(Wrap(s)) == Cap(s)
    ensures WordProduce(Wrap(s), p, false) == Wrap(ProduceStep(s, p, false))
  {
    var c := Get(s, p).pc.push;
    WrapSetPc(s, p, Cas(c));
    TruncShift(c.pos, 1);
    WrapSetPc(s, p, Construct(c));
  }

  lemma CasCommutes<T>(s: State<T>, p: Pid, spurious: bool)
    requires Inv(s) && LagOk(s) && Get(s, p).pc.Cas?
    ensures Cap(Wrap(s)) == Cap(s)
    ensures WordProduce(Wrap(s), p, spurious) == Wrap(ProduceStep(s, p, spurious))
  {
    assert ProducerOk(s, p);
    var c := Get(s, p).pc.push;
    if s.head == c.pos && !spurious { ClaimCommutes(s, p); }
    else {
      var c' := if s.head == c.pos then c else c.(pos := s.head, retries := c.retries + 1);
      TruncInjective(c.pos, s.head);
      WrapSetPc(s, p, Cas(c));
      WrapSetPc(s, p, LoadSeq(c'));
    }
  }

  lemma ConstructCommutes<T>(s: State<T>, p: Pid)
    requires WordCapacity(Cap(s)) && Get(s, p).pc.Construct?
    ensures Cap(Wrap(s)) == Cap(s) && Cap(s) >= 2
    ensures WordProduce(Wrap(s), p, false) == Wrap(ProduceStep(s, p, false))
  {
    var c := Get(s, p).pc.push;
    WrapSetPc(s, p, Construct(c));
    WrapSlots(s, c.pos);
    var slot := SlotAt(s, c.pos).(storage := Full(c.value));
    WrapSet(s, c.pos, slot);
    WrapSetPc(SetSlot(s, c.pos, slot), p, Publish(c));
  }

  lemma PublishCommutes<T>(s: State<T>, p: Pid)
    requires WordCapacity(Cap(s)) && Get(s, p).pc.Publish?
    ensures Cap(Wrap(s)) == Cap(s) && Cap(s) >= 2
    ensures WordProduce(Wrap(s), p, false) == Wrap(ProduceStep(s, p, false))
  {
    var c := Get(s, p).pc.push;
    WrapSetPc(s, p, Publish(c));
    WrapSlots(s, c.pos);
    TruncShift(c.pos, 1);
    var slot := SlotAt(s, c.pos).(sequence := c.pos + 1);
    WrapSet(s, c.pos, slot);
    var a, b := WordProduce(Wrap(s), p, false), Wrap(ProduceStep(s, p, false));
    assert a.producers == b.producers;
  }

  lemma ProduceCommutes<T>(s: State<T>, p: Pid, spurious: bool)
    requires Inv(s) && LagOk(s) && WordCapacity(Cap(s))
    ensures Cap(Wrap(s)) == Cap(s)
    ensures WordProduce(Wrap(s), p, spurious) == Wrap(ProduceStep(s, p, spurious))
  {
    WrapSetPc(s, p, Get(s, p).pc);
    match Get(s, p).pc
    case Outside =>
    case Returned(_) =>
    case LoadHead(v) => WrapSetPc(s, p, LoadSeq(Push(v, s.head, s.head, 0)));
    case LoadSeq(_) => LoadSeqCommutes(s, p);
    case Cas(_) => CasCommutes(s, p, spurious);
    case Reload(c) => WrapSetPc(s, p, LoadSeq(c.(pos := s.head, retries := c.retries + 1)));
    case Construct(_) => ConstructCommutes(s, p);
    case Publish(_) => PublishCommutes(s, p);
  }

  lemma FrontDiff<T>(s: State<T>)
    requires Inv(s) && WordCapacity(Cap(s)) && s.consumer.CheckSeq?
    ensures Cap(Wrap(s)) == Cap(s)
    ensures Diff(WordSlotAt(Wrap(s), Wrap(s).tail).sequence, Trunc(Wrap(s).tail + 1))
            == SlotAt(s, s.tail).sequence - (s.tail + 1)
  {
    var n := SlotAt(s, s.tail).sequence;
    WrapSlots(s, s.tail);
    TruncShift(s.tail, 1);
    WindowSequence(s, s.tail);
    DiffOfWords(n, s.tail + 1);
  }

  lemma CheckCommutes<T>(s: State<T>)
    requires Inv(s) && WordCapacity(Cap(s)) && s.consumer.CheckSeq?
    ensures Cap(Wrap(s)) == Cap(s)
    ensures WordConsume(Wrap(s)) == Wrap(ConsumeStep(s))
  {
    FrontDiff(s);
  }

  lemma CapacityFits<T>(s: State<T>)
    requires WordCapacity(Cap(s))
    ensures Cap(Wrap(s)) == Cap(s) && Cap(s) >= 2
  {
    IndexOfWord(0, Cap(s));
  }

  lemma MoveOutCommutes<T>(s: State<T>)
    requires WordCapacity(Cap(s)) && s.consumer.MoveOut?
    ensures Cap(Wrap(s)) == Cap(s) && Cap(s) >= 2
    ensures WordConsume(Wrap(s)) == Wrap(ConsumeStep(s))
  {
    hide WordCapacity, And, Trunc;
    CapacityFits(s);
    WrapSlots(s, s.tail);
    WrapSet(s, s.tail, SlotAt(s, s.tail).(storage := Raw));
  }

  lemma RecycleCommutes<T>(s: State<T>)
    requires WordCapacity(Cap(s)) && s.consumer.Recycle?
    ensures Cap(Wrap(s)) == Cap(s) && Cap(s) >= 2
    ensures WordConsume(Wrap(s)) == Wrap(ConsumeStep(s))
  {
    hide WordCapacity, And, Trunc;
    CapacityFits(s);
    WrapSlots(s, s.tail);
    TruncShift(s.tail, Cap(s));
    WrapSet(s, s.tail, SlotAt(s, s.tail).(sequence := s.tail + Cap(s)));
  }

  lemma AdvanceCommutes<T>(s: State<T>)
    requires WordCapacity(Cap(s)) && s.consumer.Advance?
    ensures Cap(Wrap(s)) == Cap(s) && Cap(s) >= 2
    ensures WordConsume(Wrap(s)) == Wrap(ConsumeStep(s))
  {
    hide WordCapacity, And, Trunc;
    CapacityFits(s);
    TruncShift(s.tail, 1);
  }

  lemma ConsumeCommutes<T>(s: State<T>)
    requires Inv(s) && WordCapacity(Cap(s))
    ensures Cap(Wrap(s)) == Cap(s)
    ensures WordConsume(Wrap(s)) == Wrap(ConsumeStep(s))
  {
    hide Inv, WordCapacity, WordConsume, Wrap, ConsumeStep;
    match s.consumer
    case CheckSeq => CheckCommutes(s);
    case MoveOut => MoveOutCommutes(s);
    case Recycle(_) => RecycleCommutes(s);
    case Advance(_) => AdvanceCommutes(s);
  }

  lemma NextCommutes<T>(s: State<T>, step: Step<T>)
    requires Inv(s) && LagOk(s) && WordCapacity(Cap(s))
    ensures Cap(Wrap(s)) == Cap(s)
    ensures WordNext(Wrap(s), step) == Wrap(Next(s, step))
  {
    match step
    case Call(p, v) =>
      WrapSetPc(s, p, LoadHead(v));
      assert CanCall(Wrap(s), p) == CanCall(s, p);
    case Produce(p, spurious) => ProduceCommutes(s, p, spurious);
    case Consume => ConsumeCommutes(s);
  }

  /** The machine over words makes the same run as the machine over unbounded counters: same
      branches, same claims, same results, in every state of every run during which no producer
      lags by 2^62 or more. */
  lemma {:induction false} WordRunRefines<T>(cap: nat, steps: seq<Step<T>>)
    requires WordCapacity(cap) && cap > 0
    requires forall i :: 0 <= i < |steps| ==> LagOk(Run(cap, steps[..i]))
    ensures WordRun(cap, steps) == Wrap(Run(cap, steps))
  {
    IndexOfWord(0, cap);
    if steps == [] {
      assert WordRun(cap, steps).slots == Wrap(Run(cap, steps)).slots;
    } else {
      var before, step := steps[..|steps| - 1], steps[|steps| - 1];
      assert forall i :: 0 <= i < |before| ==> before[..i] == steps[..i];
      WordRunRefines(cap, before);
      RunInv(cap, before);
      NextCommutes(Run(cap, before), step);
    }
  }
}
