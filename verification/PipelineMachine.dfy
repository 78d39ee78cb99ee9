/**
 The pipeline from ring buffer to alert counters: the consumer's loop and final drain, the pool's
 workers, and the atomic counters they increment one by one. Producers, consumer, workers and the
 main thread interleave freely; the pool is shut down only after the consumer has returned.
 */
module PipelineMachine {
  import opened Prelude
  import Pool = PoolMachine

  datatype Entry = Entry(line: Bytes, source: Bytes)

  datatype Severity = Info | Warn | Error | Critical

  /** The rules in their order; whether a rule's pattern occurs in a line is not interpreted. */
  datatype Engine = Engine(severities: seq<Severity>, occurs: (nat, Bytes) -> bool)

  /** The index of the first rule from k on that matches the line. */
  function FirstMatchFrom(g: Engine, line: Bytes, k: nat): (r: Option<nat>)
    requires k <= |g.severities|
    ensures r.Some? ==> k <= r.value < |g.severities| && g.occurs(r.value, line)
    ensures forall j :: k <= j < (if r.Some? then r.value else |g.severities|) ==> !g.occurs(j, line)
    decreases |g.severities| - k
  {
    if k == |g.severities| then None
    else if g.occurs(k, line) then Some(k)
    else FirstMatchFrom(g, line, k + 1)
  }

  function FirstMatch(g: Engine, e: Entry): Option<nat> { FirstMatchFrom(g, e.line, 0) }

  /** The rule an entry is charged to: the first whose pattern occurs in its line. */
  lemma FirstMatchIsFirst(g: Engine, e: Entry)
    ensures match FirstMatch(g, e)
            case None => forall j :: 0 <= j < |g.severities| ==> !g.occurs(j, e.line)
            case Some(r) => r < |g.severities| && g.occurs(r, e.line) && forall j :: 0 <= j < r ==> !g.occurs(j, e.line)
  {
  }

  datatype Counter = Matched | Triggers(rule: nat) | Alerts(severity: Severity)

  /** Processing an entry increments the counters in three steps; this is the step of each. */
  function StageOf(c: Counter): nat {
    match c
    case Matched => 1
    case Triggers(_) => 2
    case Alerts(_) => 3
  }

  const LAST: nat := 3

  /** What an entry adds to a counter, once it has been processed. */
  function Share(g: Engine, c: Counter, e: Entry): nat {
    match FirstMatch(g, e)
    case None => 0
    case Some(r) =>
      match c
      case Matched => 1
      case Triggers(q) => if q == r then 1 else 0
      case Alerts(v) => if v == g.severities[r] then 1 else 0
  }

  function Shares(g: Engine, c: Counter, es: seq<Entry>): nat {
    if es == [] then 0 else Shares(g, c, es[..|es| - 1]) + Share(g, c, es[|es| - 1])
  }

  /** Where the consumer is: the loop of run, then drain, then returned. */
  datatype Consumer =
    | Loop
    | Pop
    | Popped(e: Entry)
    | Counted(e: Entry)
    | Drain
    | DrainPopped(e: Entry)
    | DrainAlert(e: Entry, stage: nat)
    | Returned

  datatype State = State(
    ring: seq<Entry>,
    stopFlag: bool,
    consumer: Consumer,
    pool: Pool.Pool<Entry>,
    stages: seq<nat>,
    totalLines: nat,
    counters: map<Counter, nat>,
    pushed: seq<Entry>,
    popped: seq<Entry>,
    drained: seq<Entry>)

  datatype Step =
    | Push(e: Entry)
    | SetStop
    | Consume(ready: bool)
    | Process(w: nat)
    | InPool(step: Pool.Step<Entry>)

  function Init(workers: nat): State {
    State([], false, Loop, Pool.Init(workers), seq(workers, (_: nat) => 0), 0, map[], [], [], [])
  }

  function Count(s: State, c: Counter): nat {
    if c in s.counters then s.counters[c] else 0
  }

  function Bump(s: State, c: Counter): State {
    s.(counters := s.counters[c := Count(s, c) + 1])
  }

  /** One atomic increment of processing e, from the given stage: the counters and the next
      stage. An entry without a matching rule is done at once. */
  function Charge(g: Engine, s: State, e: Entry, stage: nat): (State, nat) {
    match FirstMatch(g, e)
    case None => (s, LAST)
    case Some(r) =>
      if stage == 0 then (Bump(s, Matched), 1)
      else if stage == 1 then (Bump(s, Triggers(r)), 2)
      else if stage == 2 then (Bump(s, Alerts(g.severities[r])), 3)
      else (s, LAST)
  }

  /** The next step of the consumer; a pop may fail although the ring is not empty, while its
      front is not published yet. */
  function ConsumeStep(g: Engine, s: State, ready: bool): State {
    match s.consumer
    case Loop => s.(consumer := if s.stopFlag then Drain else Pop)
    case Pop =>
      if ready && s.ring != [] then
        s.(ring := s.ring[1..], popped := s.popped + [s.ring[0]], consumer := Popped(s.ring[0]))
      else s.(consumer := Loop)
    case Popped(e) => s.(totalLines := s.totalLines + 1, consumer := Counted(e))
    case Counted(e) => s.(pool := Pool.Next(s.pool, Pool.Enqueue(e)), consumer := Loop)
    case Drain =>
      if ready && s.ring != [] then
        s.(ring := s.ring[1..], popped := s.popped + [s.ring[0]], consumer := DrainPopped(s.ring[0]))
      else s.(consumer := Returned)
    case DrainPopped(e) => s.(totalLines := s.totalLines + 1, consumer := DrainAlert(e, 0))
    case DrainAlert(e, stage) =>
      if stage == LAST then s.(consumer := Drain, drained := s.drained + [e])
      else
        var (s', next) := Charge(g, s, e, stage);
        s'.(consumer := DrainAlert(e, next))
    case Returned => s
  }

  function ProcessStep(g: Engine, s: State, w: nat): State {
    if w < |s.pool.workers| && w < |s.stages| && s.pool.workers[w].Running? && s.stages[w] < LAST then
      var (s', next) := Charge(g, s, s.pool.workers[w].task, s.stages[w]);
      s'.(stages := s.stages[w := next])
    else s
  }

  /** A step of the pool's own protocol. Only the consumer enqueues, main shuts the pool down only
      after joining the consumer, and a task ends only when its entry has been processed. */
  function PoolStep(s: State, step: Pool.Step<Entry>): State {
    match step
    case Enqueue(_) => s
    case Shutdown => if s.consumer.Returned? then s.(pool := Pool.Next(s.pool, step)) else s
    case Finish(w) =>
      if w < |s.stages| && s.stages[w] == LAST then s.(pool := Pool.Next(s.pool, step)) else s
    case Check(w) =>
      if w < |s.stages| && w < |s.pool.workers| && s.pool.workers[w].Checking? then
        s.(pool := Pool.Next(s.pool, step), stages := s.stages[w := 0])
      else s
    case _ => s.(pool := Pool.Next(s.pool, step))
  }

  function Next(g: Engine, s: State, step: Step): State {
    match step
    case Push(e) => s.(ring := s.ring + [e], pushed := s.pushed + [e])
    case SetStop => s.(stopFlag := true)
    case Consume(ready) => ConsumeStep(g, s, ready)
    case Process(w) => ProcessStep(g, s, w)
    case InPool(step) => PoolStep(s, step)
  }

  function Run(g: Engine, workers: nat, steps: seq<Step>): State {
    if steps == [] then Init(workers)
    else Next(g, Run(g, workers, steps[..|steps| - 1]), steps[|steps| - 1])
  }

  // ----- the invariant -----

  /** What the worker still owes a counter. */
  function Owed(g: Engine, c: Counter, worker: Pool.Worker<Entry>, stage: nat): nat {
    if worker.Running? && stage < StageOf(c) then Share(g, c, worker.task) else 0
  }

  function OwedAll(g: Engine, c: Counter, ws: seq<Pool.Worker<Entry>>, stages: seq<nat>): nat
    requires |ws| == |stages|
  {
    if ws == [] then 0
    else
      var n := |ws| - 1;
      OwedAll(g, c, ws[..n], stages[..n]) + Owed(g, c, ws[n], stages[n])
  }

  /** What the drain loop has already added for the entry in its hands. */
  function DrainShare(g: Engine, c: Counter, consumer: Consumer): nat {
    if consumer.DrainAlert? && StageOf(c) <= consumer.stage then Share(g, c, consumer.e) else 0
  }

  /** A counter and what workers owe it make up the shares of all started and drained entries. */
  ghost predicate CounterOk(g: Engine, s: State, c: Counter)
    requires |s.pool.workers| == |s.stages|
  {
    Count(s, c) + OwedAll(g, c, s.pool.workers, s.stages)
    == Shares(g, c, s.pool.started) + Shares(g, c, s.drained) + DrainShare(g, c, s.consumer)
  }

  /** The entries that have been popped and are in the consumer's hands. */
  function InHand(consumer: Consumer): seq<Entry> {
    match consumer
    case Popped(e) => [e]
    case Counted(e) => [e]
    case DrainPopped(e) => [e]
    case DrainAlert(e, _) => [e]
    case _ => []
  }

  predicate InLoop(consumer: Consumer) {
    consumer.Loop? || consumer.Pop? || consumer.Popped? || consumer.Counted?
  }

  /** Every popped entry is counted or about to be, and was handed to the pool or drained. */
  ghost predicate EntriesOk(s: State) {
    && s.popped == s.pool.accepted + s.drained + InHand(s.consumer)
    && s.totalLines + (if s.consumer.Popped? || s.consumer.DrainPopped? then 1 else 0) == |s.popped|
    && (InLoop(s.consumer) ==> s.drained == [])
    && (s.pool.stop ==> s.consumer.Returned?)
    && (s.consumer.DrainAlert? ==> s.consumer.stage <= LAST)
  }

  ghost predicate ShapeOk(s: State) {
    && |s.pool.workers| == |s.stages|
    && forall w :: 0 <= w < |s.stages| ==> s.stages[w] <= LAST
  }

  ghost predicate Inv(g: Engine, s: State) {
    && ShapeOk(s)
    && EntriesOk(s)
    && Pool.TasksAccounted(s.pool)
    && (forall c: Counter :: CounterOk(g, s, c))
  }

  // ----- every step keeps the invariant -----

  lemma {:induction false} OwedUpdate(g: Engine, c: Counter, ws: seq<Pool.Worker<Entry>>, stages: seq<nat>,
                                      w: nat, x: Pool.Worker<Entry>, stage: nat)
    requires |ws| == |stages| && w < |ws|
    ensures OwedAll(g, c, ws[w := x], stages[w := stage]) + Owed(g, c, ws[w], stages[w])
            == OwedAll(g, c, ws, stages) + Owed(g, c, x, stage)
  {
    hide Owed;
    var n := |ws| - 1;
    var vs, ts := ws[w := x], stages[w := stage];
    if w < n {
      assert vs[..n] == ws[..n][w := x] && ts[..n] == stages[..n][w := stage];
      OwedUpdate(g, c, ws[..n], stages[..n], w, x, stage);
    } else {
      assert vs[..n] == ws[..n] && ts[..n] == stages[..n];
    }
  }

  lemma {:induction false} OwedSame(g: Engine, c: Counter, ws: seq<Pool.Worker<Entry>>,
                                    vs: seq<Pool.Worker<Entry>>, stages: seq<nat>)
    requires |ws| == |vs| == |stages|
    requires forall i :: 0 <= i < |ws| ==> Owed(g, c, ws[i], stages[i]) == Owed(g, c, vs[i], stages[i])
    ensures OwedAll(g, c, ws, stages) == OwedAll(g, c, vs, stages)
  {
    if ws != [] {
      var n := |ws| - 1;
      OwedSame(g, c, ws[..n], vs[..n], stages[..n]);
    }
  }

  lemma {:induction false} OwedNothing(g: Engine, c: Counter, ws: seq<Pool.Worker<Entry>>, stages: seq<nat>)
    requires |ws| == |stages|
    requires forall i :: 0 <= i < |ws| ==> !ws[i].Running?
    ensures OwedAll(g, c, ws, stages) == 0
  {
    if ws != [] { OwedNothing(g, c, ws[..|ws| - 1], stages[..|ws| - 1]); }
  }

  lemma SharesSnoc(g: Engine, c: Counter, es: seq<Entry>, e: Entry)
    ensures Shares(g, c, es + [e]) == Shares(g, c, es) + Share(g, c, e)
  {
    assert (es + [e])[..|es|] == es;
  }

  /** One increment of processing an entry settles exactly the counter of its stage. */
  lemma ChargeSettles(g: Engine, s: State, e: Entry, stage: nat, c: Counter)
    requires stage < LAST
    ensures var (s', next) := Charge(g, s, e, stage);
            && stage < next <= LAST
            && Count(s', c) + (if next < StageOf(c) then Share(g, c, e) else 0)
               == Count(s, c) + (if stage < StageOf(c) then Share(g, c, e) else 0)
            && s' == s.(counters := s'.counters)
  {
  }

  lemma ProcessKeepsCounter(g: Engine, s: State, w: nat, c: Counter)
    requires ShapeOk(s) && CounterOk(g, s, c)
    ensures ShapeOk(ProcessStep(g, s, w)) && CounterOk(g, ProcessStep(g, s, w), c)
  {
    hide Charge, Share, Shares, OwedAll;
    if w < |s.pool.workers| && s.pool.workers[w].Running? && s.stages[w] < LAST {
      var e := s.pool.workers[w].task;
      ChargeSettles(g, s, e, s.stages[w], c);
      var (s', next) := Charge(g, s, e, s.stages[w]);
      OwedUpdate(g, c, s.pool.workers, s.stages, w, s.pool.workers[w], next);
      assert s.pool.workers[w := s.pool.workers[w]] == s.pool.workers;
    }
  }

  lemma DrainKeepsCounter(g: Engine, s: State, ready: bool, c: Counter)
    requires ShapeOk(s) && CounterOk(g, s, c) && s.consumer.DrainAlert? && s.consumer.stage <= LAST
    ensures ShapeOk(ConsumeStep(g, s, ready)) && CounterOk(g, ConsumeStep(g, s, ready), c)
  {
    hide Charge, Share, Shares, OwedAll;
    var e := s.consumer.e;
    if s.consumer.stage < LAST { ChargeSettles(g, s, e, s.consumer.stage, c); }
    else { SharesSnoc(g, c, s.drained, e); }
  }

  lemma ConsumeKeepsCounter(g: Engine, s: State, ready: bool, c: Counter)
    requires ShapeOk(s) && EntriesOk(s) && CounterOk(g, s, c)
    ensures ShapeOk(ConsumeStep(g, s, ready)) && CounterOk(g, ConsumeStep(g, s, ready), c)
  {
    hide Share, Shares, OwedAll, Charge;
    if s.consumer.DrainAlert? { DrainKeepsCounter(g, s, ready, c); }
  }

  lemma CheckKeepsCounter(g: Engine, s: State, w: nat, c: Counter)
    requires ShapeOk(s) && CounterOk(g, s, c) && w < |s.stages| && s.pool.workers[w].Checking?
    ensures var s' := PoolStep(s, Pool.Check(w)); ShapeOk(s') && CounterOk(g, s', c)
  {
    hide Share, Shares, OwedAll;
    var s' := PoolStep(s, Pool.Check(w));
    OwedUpdate(g, c, s.pool.workers, s.stages, w, s'.pool.workers[w], 0);
    if s.pool.tasks != [] { SharesSnoc(g, c, s.pool.started, s.pool.tasks[0]); }
  }

  lemma PoolKeepsCounter(g: Engine, s: State, step: Pool.Step<Entry>, c: Counter)
    requires ShapeOk(s) && CounterOk(g, s, c)
    ensures ShapeOk(PoolStep(s, step)) && CounterOk(g, PoolStep(s, step), c)
  {
    hide Share, Shares, OwedAll;
    var s' := PoolStep(s, step);
    match step
    case Check(w) =>
      if w < |s.stages| && s.pool.workers[w].Checking? { CheckKeepsCounter(g, s, w, c); }
    case Enqueue(_) =>
    case _ =>
      if s' != s {
        forall i | 0 <= i < |s.stages|
          ensures Owed(g, c, s.pool.workers[i], s.stages[i]) == Owed(g, c, s'.pool.workers[i], s.stages[i])
        {
        }
        OwedSame(g, c, s.pool.workers, s'.pool.workers, s.stages);
      }
  }

  lemma NextKeepsCounter(g: Engine, s: State, step: Step, c: Counter)
    requires ShapeOk(s) && EntriesOk(s) && CounterOk(g, s, c)
    ensures ShapeOk(Next(g, s, step)) && CounterOk(g, Next(g, s, step), c)
  {
    hide ConsumeStep, ProcessStep, PoolStep, OwedAll, Shares;
    match step
    case Push(_) =>
    case SetStop =>
    case Consume(ready) => ConsumeKeepsCounter(g, s, ready, c);
    case Process(w) => ProcessKeepsCounter(g, s, w, c);
    case InPool(step) => PoolKeepsCounter(g, s, step, c);
  }

  lemma ConsumeKeepsEntries(g: Engine, s: State, ready: bool)
    requires EntriesOk(s)
    ensures EntriesOk(ConsumeStep(g, s, ready))
  {
    hide Charge, Share;
    match s.consumer
    case Counted(e) => assert s.pool.accepted + [] + [e] == s.pool.accepted + [e] + [];
    case DrainAlert(e, stage) =>
      if stage < LAST { ChargeSettles(g, s, e, stage, Matched); }
      else { assert s.popped == s.pool.accepted + (s.drained + [e]) + []; }
    case _ =>
  }

  lemma PoolStepKeepsEntries(s: State, step: Pool.Step<Entry>)
    requires EntriesOk(s)
    ensures EntriesOk(PoolStep(s, step))
  {
    hide InLoop, InHand;
  }

  lemma NextKeepsEntries(g: Engine, s: State, step: Step)
    requires EntriesOk(s)
    ensures EntriesOk(Next(g, s, step))
  {
    hide ConsumeStep, Charge, PoolStep;
    match step
    case Consume(ready) => ConsumeKeepsEntries(g, s, ready);
    case InPool(step) => PoolStepKeepsEntries(s, step);
    case Process(w) =>
      if ProcessStep(g, s, w) != s {
        ChargeSettles(g, s, s.pool.workers[w].task, s.stages[w], Matched);
      }
    case _ =>
  }

  lemma NextKeepsPool(g: Engine, s: State, step: Step)
    requires Pool.TasksAccounted(s.pool)
    ensures Pool.TasksAccounted(Next(g, s, step).pool)
  {
    hide Pool.TasksAccounted, Pool.Next;
    match step
    case Consume(_) =>
      if s.consumer.Counted? { Pool.NextKeepsTasks(s.pool, Pool.Enqueue(s.consumer.e)); }
    case InPool(step) => Pool.NextKeepsTasks(s.pool, step);
    case _ =>
  }

  lemma InitInv(g: Engine, workers: nat)
    requires workers >= 1
    ensures Inv(g, Init(workers))
  {
    Pool.InitInv<Entry>(workers);
    var s := Init(workers);
    forall c: Counter ensures CounterOk(g, s, c) {
      OwedNothing(g, c, s.pool.workers, s.stages);
    }
  }

  lemma NextKeepsInv(g: Engine, s: State, step: Step)
    requires Inv(g, s)
    ensures Inv(g, Next(g, s, step))
  {
    hide Next, EntriesOk, CounterOk, Pool.TasksAccounted;
    NextKeepsEntries(g, s, step);
    NextKeepsPool(g, s, step);
    assert CounterOk(g, s, Matched);
    NextKeepsCounter(g, s, step, Matched);
    forall c: Counter ensures CounterOk(g, Next(g, s, step), c) {
      NextKeepsCounter(g, s, step, c);
    }
  }

  lemma {:induction false} RunInv(g: Engine, workers: nat, steps: seq<Step>)
    requires workers >= 1
    ensures Inv(g, Run(g, workers, steps))
  {
    hide Inv, Next;
    if steps == [] { InitInv(g, workers); }
    else {
      RunInv(g, workers, steps[..|steps| - 1]);
      NextKeepsInv(g, Run(g, workers, steps[..|steps| - 1]), steps[|steps| - 1]);
    }
  }

  // ----- what the pipeline promises -----

  /** Nothing is in flight: the consumer has returned from run and every worker has exited. */
  ghost predicate Quiescent(s: State) {
    s.consumer.Returned?
    && forall w :: 0 <= w < |s.pool.workers| ==> s.pool.workers[w].Exited?
  }

  lemma {:induction false} SharesConcat(g: Engine, c: Counter, a: seq<Entry>, b: seq<Entry>)
    ensures Shares(g, c, a + b) == Shares(g, c, a) + Shares(g, c, b)
  {
    if b == [] { assert a + b == a; }
    else {
      SharesConcat(g, c, a, b[..|b| - 1]);
      assert a + b == (a + b[..|b| - 1]) + [b[|b| - 1]];
      SharesSnoc(g, c, a + b[..|b| - 1], b[|b| - 1]);
    }
  }

  /** The number of entries that some rule matches. */
  function MatchedIn(g: Engine, es: seq<Entry>): nat {
    if es == [] then 0
    else
      MatchedIn(g, es[..|es| - 1]) + if FirstMatch(g, es[|es| - 1]).Some? then 1 else 0
  }

  /** The number of entries whose first matching rule is r. */
  function FirstMatchedBy(g: Engine, es: seq<Entry>, r: nat): nat {
    if es == [] then 0
    else
      FirstMatchedBy(g, es[..|es| - 1], r) + if FirstMatch(g, es[|es| - 1]) == Some(r) then 1 else 0
  }

  /** The number of entries whose first matching rule has this severity. */
  function MatchedWith(g: Engine, es: seq<Entry>, v: Severity): nat {
    if es == [] then 0
    else
      var front, r := MatchedWith(g, es[..|es| - 1], v), FirstMatch(g, es[|es| - 1]);
      if r.Some? && g.severities[r.value] == v then front + 1 else front
  }

  lemma {:induction false} SharesOfSeverity(g: Engine, es: seq<Entry>, v: Severity)
    ensures Shares(g, Alerts(v), es) == MatchedWith(g, es, v)
  {
    if es != [] { SharesOfSeverity(g, es[..|es| - 1], v); }
  }

  function SumTriggers(s: State, n: nat): nat {
    if n == 0 then 0 else SumTriggers(s, n - 1) + Count(s, Triggers(n - 1))
  }

  lemma {:induction false} SharesOfMatched(g: Engine, es: seq<Entry>)
    ensures Shares(g, Matched, es) == MatchedIn(g, es)
  {
    if es != [] { SharesOfMatched(g, es[..|es| - 1]); }
  }

  lemma {:induction false} SharesOfTriggers(g: Engine, es: seq<Entry>, r: nat)
    ensures Shares(g, Triggers(r), es) == FirstMatchedBy(g, es, r)
  {
    if es != [] { SharesOfTriggers(g, es[..|es| - 1], r); }
  }

  lemma {:induction false} SeveritiesPartition(g: Engine, es: seq<Entry>)
    ensures Shares(g, Alerts(Info), es) + Shares(g, Alerts(Warn), es)
            + Shares(g, Alerts(Error), es) + Shares(g, Alerts(Critical), es) == MatchedIn(g, es)
  {
    if es != [] { SeveritiesPartition(g, es[..|es| - 1]); }
  }

  /** The number of entries whose first matching rule is one of the first n. */
  function FirstMatchedBelow(g: Engine, es: seq<Entry>, n: nat): nat {
    if n == 0 then 0 else FirstMatchedBelow(g, es, n - 1) + FirstMatchedBy(g, es, n - 1)
  }

  lemma {:induction false} TriggersPartition(g: Engine, es: seq<Entry>)
    ensures FirstMatchedBelow(g, es, |g.severities|) == MatchedIn(g, es)
  {
    if es == [] { NoneBelow(g, |g.severities|); }
    else {
      TriggersPartition(g, es[..|es| - 1]);
      OneMoreBelow(g, es, |g.severities|);
    }
  }

  lemma {:induction false} NoneBelow(g: Engine, n: nat)
    ensures FirstMatchedBelow(g, [], n) == 0
  {
    if n > 0 { NoneBelow(g, n - 1); }
  }

  lemma {:induction false} OneMoreBelow(g: Engine, es: seq<Entry>, n: nat)
    requires es != []
    ensures FirstMatchedBelow(g, es, n)
            == FirstMatchedBelow(g, es[..|es| - 1], n)
               + match FirstMatch(g, es[|es| - 1])
                 case None => 0
                 case Some(r) => if r < n then 1 else 0
  {
    if n > 0 { OneMoreBelow(g, es, n - 1); }
  }

  lemma QuiescentCounter(g: Engine, s: State, c: Counter)
    requires Inv(g, s) && Pool.WakeupsKept(s.pool) && Quiescent(s)
    ensures s.popped == s.pool.accepted + s.drained && |s.popped| == s.totalLines
    ensures Count(s, c) == Shares(g, c, s.popped)
  {
    hide Share, Shares, Pool.Balanced;
    assert s.pool.workers[0].Exited?;
    assert s.pool.started == s.pool.accepted;
    assert CounterOk(g, s, c);
    OwedNothing(g, c, s.pool.workers, s.stages);
    SharesConcat(g, c, s.pool.accepted, s.drained);
  }

  lemma {:induction false} RunWakeups(g: Engine, workers: nat, steps: seq<Step>)
    requires workers >= 1
    ensures Pool.WakeupsKept(Run(g, workers, steps).pool)
  {
    if steps == [] { Pool.InitInv<Entry>(workers); }
    else {
      hide Pool.WakeupsKept, Pool.Next, Charge;
      RunWakeups(g, workers, steps[..|steps| - 1]);
      var s := Run(g, workers, steps[..|steps| - 1]);
      match steps[|steps| - 1]
      case Consume(_) =>
        if s.consumer.Counted? { Pool.NextKeepsWakeups(s.pool, Pool.Enqueue(s.consumer.e)); }
      case InPool(step) => Pool.NextKeepsWakeups(s.pool, step);
      case Process(w) =>
        if ProcessStep(g, s, w) != s {
          ChargeSettles(g, s, s.pool.workers[w].task, s.stages[w], Matched);
        }
      case _ =>
    }
  }

  lemma {:induction false} SumOfTriggers(g: Engine, s: State, n: nat)
    requires forall r: nat :: Count(s, Triggers(r)) == FirstMatchedBy(g, s.popped, r)
    ensures SumTriggers(s, n) == FirstMatchedBelow(g, s.popped, n)
  {
    if n > 0 { SumOfTriggers(g, s, n - 1); }
  }

  // ----- from what was pushed -----

  lemma ChargeMovesNoEntry(g: Engine, s: State, e: Entry, stage: nat)
    ensures var s' := Charge(g, s, e, stage).0;
            s'.ring == s.ring && s'.pushed == s.pushed && s'.popped == s.popped && s'.consumer == s.consumer
  {
  }

  lemma StepMovesEntries(g: Engine, s: State, step: Step)
    requires s.popped + s.ring == s.pushed
    ensures Next(g, s, step).popped + Next(g, s, step).ring == Next(g, s, step).pushed
  {
    hide Charge, Pool.Next;
    match step
    case Push(e) => assert s.popped + (s.ring + [e]) == s.popped + s.ring + [e];
    case Consume(ready) =>
      if s.consumer.DrainAlert? { ChargeMovesNoEntry(g, s, s.consumer.e, s.consumer.stage); }
      if s.ring != [] { assert s.popped + [s.ring[0]] + s.ring[1..] == s.popped + s.ring; }
    case Process(w) =>
      if w < |s.pool.workers| && w < |s.stages| && s.pool.workers[w].Running? {
        ChargeMovesNoEntry(g, s, s.pool.workers[w].task, s.stages[w]);
      }
    case InPool(_) =>
    case SetStop =>
  }

  /** Nothing is lost, duplicated or reordered between a push and a pop. */
  lemma {:induction false} PushedIsPoppedOrInRing(g: Engine, workers: nat, steps: seq<Step>)
    ensures var s := Run(g, workers, steps); s.popped + s.ring == s.pushed
    decreases |steps|
  {
    if steps != [] {
      PushedIsPoppedOrInRing(g, workers, steps[..|steps| - 1]);
      hide Next;
      StepMovesEntries(g, Run(g, workers, steps[..|steps| - 1]), steps[|steps| - 1]);
    }
  }

  /** The entries that some steps push. */
  function Pushes(steps: seq<Step>): seq<Entry> {
    if steps == [] then []
    else
      var front := Pushes(steps[..|steps| - 1]);
      if steps[|steps| - 1].Push? then front + [steps[|steps| - 1].e] else front
  }

  lemma {:induction false} NoPushes(steps: seq<Step>)
    ensures Pushes(steps) == [] <==> forall k :: 0 <= k < |steps| ==> !steps[k].Push?
    decreases |steps|
  {
    if steps != [] { NoPushes(steps[..|steps| - 1]); }
  }

  /** Once the consumer has returned, what is in the ring stays there and every later push joins it:
      none of it is ever processed. */
  lemma {:induction false} LeftInRingStaysThere(g: Engine, workers: nat, steps: seq<Step>, more: seq<Step>)
    requires Run(g, workers, steps).consumer.Returned?
    ensures var s, s' := Run(g, workers, steps), Run(g, workers, steps + more);
            && s'.consumer.Returned? && s'.popped == s.popped && s'.totalLines == s.totalLines
            && s'.ring == s.ring + Pushes(more) && s'.pushed == s.pushed + Pushes(more)
    decreases |more|
  {
    if more == [] { assert steps + more == steps; }
    else {
      var front, last := more[..|more| - 1], more[|more| - 1];
      LeftInRingStaysThere(g, workers, steps, front);
      assert (steps + more)[..|steps + more| - 1] == steps + front;
      assert (steps + more)[|steps + more| - 1] == last;
      ReturnedStep(g, Run(g, workers, steps + front), last);
      hide Next;
    }
  }

  lemma ReturnedStep(g: Engine, s: State, step: Step)
    requires s.consumer.Returned?
    ensures var s' := Next(g, s, step);
            && s'.consumer.Returned? && s'.popped == s.popped && s'.totalLines == s.totalLines
            && s'.ring == (if step.Push? then s.ring + [step.e] else s.ring)
            && s'.pushed == (if step.Push? then s.pushed + [step.e] else s.pushed)
  {
    hide Pool.Next;
  }

  /** Conservation, in every interleaving: once nothing is in flight, total_lines is the number of
      popped entries; total_matched is the number of popped entries that some rule matches, and is
      the sum of the severity counters and the sum of the rules' trigger counts; and each rule's
      trigger count is the number of popped entries it is the first to match, and each severity
      counter the number whose first matching rule has that severity. */
  lemma Conservation(g: Engine, workers: nat, steps: seq<Step>)
    requires workers >= 1 && Quiescent(Run(g, workers, steps))
    ensures var s := Run(g, workers, steps);
            && s.totalLines == |s.popped|
            && Count(s, Matched) == MatchedIn(g, s.popped)
            && Count(s, Matched) == Count(s, Alerts(Info)) + Count(s, Alerts(Warn))
                                    + Count(s, Alerts(Error)) + Count(s, Alerts(Critical))
            && Count(s, Matched) == SumTriggers(s, |g.severities|)
            && (forall r: nat :: Count(s, Triggers(r)) == FirstMatchedBy(g, s.popped, r))
            && (forall v: Severity :: Count(s, Alerts(v)) == MatchedWith(g, s.popped, v))
  {
    hide Inv, Pool.WakeupsKept, Shares, MatchedIn, MatchedWith, FirstMatchedBy, FirstMatchedBelow, SumTriggers;
    RunInv(g, workers, steps);
    RunWakeups(g, workers, steps);
    var s := Run(g, workers, steps);
    forall c: Counter ensures s.totalLines == |s.popped| && Count(s, c) == Shares(g, c, s.popped) {
      QuiescentCounter(g, s, c);
    }
    QuiescentCounter(g, s, Matched);
    SharesOfMatched(g, s.popped);
    SeveritiesPartition(g, s.popped);
    forall r: nat ensures Count(s, Triggers(r)) == FirstMatchedBy(g, s.popped, r) {
      SharesOfTriggers(g, s.popped, r);
    }
    forall v: Severity ensures Count(s, Alerts(v)) == MatchedWith(g, s.popped, v) {
      SharesOfSeverity(g, s.popped, v);
    }
    SumOfTriggers(g, s, |g.severities|);
    TriggersPartition(g, s.popped);
  }

  /** Of everything that was ever pushed, exactly what is still in the ring is missing from each counter
      once nothing is in flight. */
  lemma MissingIsInRing(g: Engine, workers: nat, steps: seq<Step>, c: Counter)
    requires workers >= 1 && Quiescent(Run(g, workers, steps))
    ensures var s := Run(g, workers, steps);
            && s.popped + s.ring == s.pushed
            && s.totalLines + |s.ring| == |s.pushed|
            && Count(s, c) + Shares(g, c, s.ring) == Shares(g, c, s.pushed)
  {
    RunInv(g, workers, steps);
    RunWakeups(g, workers, steps);
    PushedIsPoppedOrInRing(g, workers, steps);
    var s := Run(g, workers, steps);
    hide Run, Inv, Shares, Pool.WakeupsKept;
    QuiescentCounter(g, s, c);
    SharesConcat(g, c, s.popped, s.ring);
  }

  /** Shutdown processes everything that is ever pushed if and only if the ring is empty when the
      consumer returns and nothing is pushed after that; then every counter accounts for every push. */
  lemma AllCountedIff(g: Engine, workers: nat, steps: seq<Step>, more: seq<Step>)
    requires workers >= 1 && Run(g, workers, steps).consumer.Returned?
    requires Quiescent(Run(g, workers, steps + more))
    ensures var s := Run(g, workers, steps + more);
            var nothingLost := Run(g, workers, steps).ring == [] && forall k :: 0 <= k < |more| ==> !more[k].Push?;
            && (s.totalLines == |s.pushed| <==> nothingLost)
            && (nothingLost ==> forall c: Counter :: Count(s, c) == Shares(g, c, s.pushed))
  {
    hide Run, Shares, Pushes;
    LeftInRingStaysThere(g, workers, steps, more);
    NoPushes(more);
    var s := Run(g, workers, steps + more);
    MissingIsInRing(g, workers, steps + more, Matched);
    if s.ring == [] {
      forall c: Counter ensures Count(s, c) == Shares(g, c, s.pushed) {
        MissingIsInRing(g, workers, steps + more, c);
        NoShares(g, c);
      }
    }
  }

  lemma NoShares(g: Engine, c: Counter)
    ensures Shares(g, c, []) == 0
  {
  }

  /** The pop that makes drain return leaves the ring as it found it: empty if the front was published,
      and whatever was claimed behind an unpublished front otherwise. */
  lemma DrainReturns(g: Engine, workers: nat, steps: seq<Step>, ready: bool)
    requires Run(g, workers, steps).consumer.Drain?
    ensures var s, s' := Run(g, workers, steps), Run(g, workers, steps + [Consume(ready)]);
            && (s'.consumer.Returned? <==> !ready || s.ring == [])
            && (s'.consumer.Returned? ==> s'.ring == s.ring)
  {
    RunMore(g, workers, steps, Consume(ready));
  }

  lemma RunMore(g: Engine, workers: nat, steps: seq<Step>, step: Step)
    ensures Run(g, workers, steps + [step]) == Next(g, Run(g, workers, steps), step)
  {
    assert (steps + [step])[..|steps|] == steps;
  }

  ghost predicate Loses(s: State, e: Entry) {
    Quiescent(s) && s.pushed == [e] && s.ring == [e] && s.popped == [] && s.totalLines == 0
  }

  /** One worker's way out once the consumer has returned with nothing accepted. */
  lemma ShutDownIdle(g: Engine, steps: seq<Step>)
    requires var s := Run(g, 1, steps);
             s.consumer.Returned? && s.pool == Pool.Init(1) && |s.stages| == 1
    ensures var s, s' := Run(g, 1, steps), Run(g, 1, steps + [InPool(Pool.Shutdown)] + [InPool(Pool.Check(0))]);
            && Quiescent(s') && s'.pushed == s.pushed && s'.ring == s.ring && s'.popped == s.popped
            && s'.totalLines == s.totalLines
  {
    hide Run;
    RunMore(g, 1, steps, InPool(Pool.Shutdown));
    RunMore(g, 1, steps + [InPool(Pool.Shutdown)], InPool(Pool.Check(0)));
  }

  lemma RunNothing(g: Engine, workers: nat)
    ensures Run(g, workers, []) == Init(workers)
  {
  }

  /** A push after drain's last pop is lost. */
  lemma LatePushIsLost(g: Engine, e: Entry)
    ensures Loses(Run(g, 1, [SetStop, Consume(true), Consume(true), Push(e),
                             InPool(Pool.Shutdown), InPool(Pool.Check(0))]), e)
  {
    hide Run;
    RunNothing(g, 1);
    var t: seq<Step> := [];
    RunMore(g, 1, t, SetStop);
    RunMore(g, 1, t + [SetStop], Consume(true));
    RunMore(g, 1, t + [SetStop] + [Consume(true)], Consume(true));
    RunMore(g, 1, t + [SetStop] + [Consume(true)] + [Consume(true)], Push(e));
    t := t + [SetStop] + [Consume(true)] + [Consume(true)] + [Push(e)];
    ShutDownIdle(g, t);
    assert t + [InPool(Pool.Shutdown)] + [InPool(Pool.Check(0))]
           == [SetStop, Consume(true), Consume(true), Push(e), InPool(Pool.Shutdown), InPool(Pool.Check(0))];
  }

  /** So is a push before it whose slot is not published when drain looks. */
  lemma UnpublishedPushIsLost(g: Engine, e: Entry)
    ensures Loses(Run(g, 1, [SetStop, Push(e), Consume(true), Consume(false),
                             InPool(Pool.Shutdown), InPool(Pool.Check(0))]), e)
  {
    hide Run;
    RunNothing(g, 1);
    var t: seq<Step> := [];
    RunMore(g, 1, t, SetStop);
    RunMore(g, 1, t + [SetStop], Push(e));
    RunMore(g, 1, t + [SetStop] + [Push(e)], Consume(true));
    RunMore(g, 1, t + [SetStop] + [Push(e)] + [Consume(true)], Consume(false));
    t := t + [SetStop] + [Push(e)] + [Consume(true)] + [Consume(false)];
    ShutDownIdle(g, t);
    assert t + [InPool(Pool.Shutdown)] + [InPool(Pool.Check(0))]
           == [SetStop, Push(e), Consume(true), Consume(false), InPool(Pool.Shutdown), InPool(Pool.Check(0))];
  }

  /** At any moment no counter is ahead of the entries popped so far. */
  lemma CountersNeverAhead(g: Engine, workers: nat, steps: seq<Step>, c: Counter)
    requires workers >= 1
    ensures var s := Run(g, workers, steps);
            s.totalLines <= |s.popped| && Count(s, c) <= Shares(g, c, s.popped)
  {
    hide Share, Shares, Pool.Balanced;
    RunInv(g, workers, steps);
    var s := Run(g, workers, steps);
    assert CounterOk(g, s, c);
    SharesConcat(g, c, s.pool.started, s.pool.tasks);
    SharesConcat(g, c, s.pool.accepted, s.drained);
    SharesConcat(g, c, s.pool.accepted + s.drained, InHand(s.consumer));
    DrainShareInHand(g, c, s.consumer);
  }

  lemma DrainShareInHand(g: Engine, c: Counter, consumer: Consumer)
    ensures DrainShare(g, c, consumer) <= Shares(g, c, InHand(consumer))
  {
    if consumer.DrainAlert? {
      assert [] + [consumer.e] == [consumer.e];
      SharesSnoc(g, c, [], consumer.e);
    }
  }
}
