/**
 The thread pool's protocol: a task queue and a stop flag under one mutex, and a condition variable.
 A critical section is one step; a notification is a step of its own, after the mutex has been
 released; a waiting worker may also wake up for no reason.
 */
module PoolMachine {

  /** Checking: about to take the mutex and test the wait predicate. */
  datatype Worker<+T> = Checking | Waiting | Running(task: T) | Exited

  /** `owedOne` counts enqueuers that have released the mutex and not yet called notify_one,
      `owedAll` says that shutdown has not yet called notify_all; the last three are histories. */
  datatype Pool<+T> = Pool(
    workers: seq<Worker<T>>,
    tasks: seq<T>,
    stop: bool,
    owedOne: nat,
    owedAll: bool,
    accepted: seq<T>,
    started: seq<T>,
    finished: seq<T>)

  datatype Step<+T> =
    | Enqueue(task: T)
    | NotifyOne(w: nat)
    | Shutdown
    | NotifyAll
    | Check(w: nat)
    | Finish(w: nat)
    | WakeUp(w: nat)

  function Init<T>(n: nat): Pool<T> {
    Pool(seq(n, (_: nat) => Checking), [], false, 0, false, [], [], [])
  }

  function SetWorker<T>(s: Pool<T>, w: nat, worker: Worker<T>): Pool<T>
    requires w < |s.workers|
  {
    s.(workers := s.workers[w := worker])
  }

  predicate NoneWaiting<T>(s: Pool<T>) {
    forall w :: 0 <= w < |s.workers| ==> !s.workers[w].Waiting?
  }

  function WokenUp<T>(worker: Worker<T>): Worker<T> {
    if worker.Waiting? then Checking else worker
  }

  /** The critical section of worker_loop: wait, return, or take the front task. */
  function CheckStep<T>(s: Pool<T>, w: nat): Pool<T>
    requires w < |s.workers|
  {
    if !s.stop && s.tasks == [] then SetWorker(s, w, Waiting)
    else if s.stop && s.tasks == [] then SetWorker(s, w, Exited)
    else
      SetWorker(s, w, Running(s.tasks[0]))
        .(tasks := s.tasks[1..], started := s.started + [s.tasks[0]])
  }

  /** One step of any thread; a step that is not enabled leaves the state alone. */
  function Next<T>(s: Pool<T>, step: Step<T>): (s': Pool<T>)
    ensures |s'.workers| == |s.workers|
  {
    match step
    case Enqueue(t) =>
      if s.stop then s
      else s.(tasks := s.tasks + [t], accepted := s.accepted + [t], owedOne := s.owedOne + 1)
    case NotifyOne(w) =>
      if s.owedOne == 0 then s
      else if w < |s.workers| && s.workers[w].Waiting? then
        SetWorker(s, w, Checking).(owedOne := s.owedOne - 1)
      else if NoneWaiting(s) then s.(owedOne := s.owedOne - 1)
      else s
    case Shutdown => if s.stop then s else s.(stop := true, owedAll := true)
    case NotifyAll =>
      if !s.owedAll then s
      else
        s.(owedAll := false,
           workers := seq(|s.workers|, i requires 0 <= i < |s.workers| => WokenUp(s.workers[i])))
    case Check(w) => if w < |s.workers| && s.workers[w].Checking? then CheckStep(s, w) else s
    case Finish(w) =>
      if w < |s.workers| && s.workers[w].Running? then
        SetWorker(s, w, Checking).(finished := s.finished + [s.workers[w].task])
      else s
    case WakeUp(w) =>
      if w < |s.workers| && s.workers[w].Waiting? then SetWorker(s, w, Checking) else s
  }

  function Run<T>(n: nat, steps: seq<Step<T>>): Pool<T> {
    if steps == [] then Init(n)
    else Next(Run(n, steps[..|steps| - 1]), steps[|steps| - 1])
  }

  ghost function Runs<T>(worker: Worker<T>, t: T): nat {
    if worker == Running(t) then 1 else 0
  }

  /** How many workers are running t. */
  ghost function InProgress<T>(workers: seq<Worker<T>>, t: T): nat {
    if workers == [] then 0
    else InProgress(workers[..|workers| - 1], t) + Runs(workers[|workers| - 1], t)
  }

  ghost predicate Awake<T>(s: Pool<T>) {
    exists w :: 0 <= w < |s.workers| && (s.workers[w].Checking? || s.workers[w].Running?)
  }

  /** Every accepted task has been started, in order, or is still queued; the started ones are
      running or finished. */
  ghost predicate TasksAccounted<T(!new)>(s: Pool<T>) {
    && s.accepted == s.started + s.tasks
    && forall t: T :: Balanced(s, t)
  }

  /** No lost wakeup: whoever should run either is awake or is going to be notified; and nobody
      exits while a task remains. */
  ghost predicate WakeupsKept<T>(s: Pool<T>) {
    && |s.workers| >= 1
    && (s.tasks != [] ==> Awake(s) || s.owedOne > 0 || s.owedAll)
    && (forall w :: 0 <= w < |s.workers| && s.workers[w].Waiting? && s.stop ==> s.owedAll)
    && (forall w :: 0 <= w < |s.workers| && s.workers[w].Exited? ==> s.stop && s.tasks == [])
    && (s.owedAll ==> s.stop)
  }

  // ----- every step keeps the invariants -----

  lemma {:induction false} InProgressUpdate<T>(ws: seq<Worker<T>>, w: nat, x: Worker<T>, t: T)
    requires w < |ws|
    ensures InProgress(ws[w := x], t) + Runs(ws[w], t) == InProgress(ws, t) + Runs(x, t)
  {
    var n := |ws| - 1;
    if w < n {
      assert ws[w := x][..n] == ws[..n][w := x];
      InProgressUpdate(ws[..n], w, x, t);
    } else {
      assert ws[w := x][..n] == ws[..n];
    }
  }

  lemma {:induction false} InProgressSame<T>(ws: seq<Worker<T>>, vs: seq<Worker<T>>, t: T)
    requires |ws| == |vs|
    requires forall i :: 0 <= i < |ws| ==> Runs(ws[i], t) == Runs(vs[i], t)
    ensures InProgress(ws, t) == InProgress(vs, t)
  {
    if ws != [] { InProgressSame(ws[..|ws| - 1], vs[..|vs| - 1], t); }
  }

  lemma {:induction false} NoneInProgress<T>(ws: seq<Worker<T>>, t: T)
    requires forall i :: 0 <= i < |ws| ==> !ws[i].Running?
    ensures InProgress(ws, t) == 0
  {
    if ws != [] { NoneInProgress(ws[..|ws| - 1], t); }
  }

  lemma Multiplicity<T>(a: seq<T>, x: T, t: T)
    ensures multiset(a + [x])[t] == multiset(a)[t] + if x == t then 1 else 0
  {
  }

  ghost predicate Balanced<T>(s: Pool<T>, t: T) {
    multiset(s.started)[t] == multiset(s.finished)[t] + InProgress(s.workers, t)
  }

  lemma CheckBalance<T>(s: Pool<T>, w: nat, t: T)
    requires Balanced(s, t) && w < |s.workers| && s.workers[w].Checking?
    ensures Balanced(CheckStep(s, w), t)
  {
    hide InProgress;
    InProgressUpdate(s.workers, w, CheckStep(s, w).workers[w], t);
    if s.tasks != [] { Multiplicity(s.started, s.tasks[0], t); }
  }

  lemma FinishBalance<T>(s: Pool<T>, w: nat, t: T)
    requires Balanced(s, t) && w < |s.workers| && s.workers[w].Running?
    ensures Balanced(Next(s, Finish(w)), t)
  {
    hide InProgress;
    InProgressUpdate(s.workers, w, Checking, t);
    Multiplicity(s.finished, s.workers[w].task, t);
  }

  /** The balance of one task value over one step. */
  lemma StepBalance<T>(s: Pool<T>, step: Step<T>, t: T)
    requires Balanced(s, t)
    ensures Balanced(Next(s, step), t)
  {
    hide InProgress, CheckStep;
    match step
    case NotifyAll => if s.owedAll { InProgressSame(s.workers, Next(s, step).workers, t); }
    case NotifyOne(w) =>
      if w < |s.workers| && s.workers[w].Waiting? { InProgressUpdate(s.workers, w, Checking, t); }
    case Check(w) => if w < |s.workers| && s.workers[w].Checking? { CheckBalance(s, w, t); }
    case Finish(w) => if w < |s.workers| && s.workers[w].Running? { FinishBalance(s, w, t); }
    case WakeUp(w) =>
      if w < |s.workers| && s.workers[w].Waiting? { InProgressUpdate(s.workers, w, Checking, t); }
    case Enqueue(_) =>
    case Shutdown =>
  }

  lemma NextKeepsTasks<T(!new)>(s: Pool<T>, step: Step<T>)
    requires TasksAccounted(s)
    ensures TasksAccounted(Next(s, step))
  {
    var s' := Next(s, step);
    assert s'.accepted == s'.started + s'.tasks by {
      if s.tasks != [] { assert s.tasks == [s.tasks[0]] + s.tasks[1..]; }
    }
    forall t: T ensures Balanced(s', t) {
      hide *;
      StepBalance(s, step, t);
    }
  }

  lemma NextKeepsWakeups<T>(s: Pool<T>, step: Step<T>)
    requires WakeupsKept(s)
    ensures WakeupsKept(Next(s, step))
  {
    var s' := Next(s, step);
    if s' != s {
      match step
      case NotifyOne(w) =>
        if w < |s.workers| && s.workers[w].Waiting? { assert s'.workers[w].Checking?; }
        else if s.tasks != [] {
          assert !s.workers[0].Waiting? && !s.workers[0].Exited?;
          assert s'.workers[0] == s.workers[0];
        }
      case NotifyAll =>
        if s.tasks != [] {
          assert !s.workers[0].Exited?;
          assert s'.workers[0] == WokenUp(s.workers[0]);
        }
      case Check(w) => assert s'.workers[w] == CheckStep(s, w).workers[w];
      case Finish(w) => assert s'.workers[w].Checking?;
      case WakeUp(w) => assert s'.workers[w].Checking?;
      case Enqueue(_) =>
      case Shutdown =>
    }
  }

  lemma InitInv<T(!new)>(n: nat)
    requires n >= 1
    ensures TasksAccounted(Init<T>(n)) && WakeupsKept(Init<T>(n))
  {
    forall t: T ensures InProgress(Init<T>(n).workers, t) == 0 {
      NoneInProgress(Init<T>(n).workers, t);
    }
  }

  lemma {:induction false} RunInv<T(!new)>(n: nat, steps: seq<Step<T>>)
    requires n >= 1
    ensures TasksAccounted(Run(n, steps)) && WakeupsKept(Run(n, steps))
  {
    hide TasksAccounted, WakeupsKept, Next;
    if steps == [] { InitInv<T>(n); }
    else {
      var s := Run(n, steps[..|steps| - 1]);
      RunInv(n, steps[..|steps| - 1]);
      NextKeepsTasks(s, steps[|steps| - 1]);
      NextKeepsWakeups(s, steps[|steps| - 1]);
    }
  }

  lemma RunSnoc<T>(n: nat, steps: seq<Step<T>>, step: Step<T>)
    ensures Run(n, steps + [step]) == Next(Run(n, steps), step)
  {
    assert (steps + [step])[..|steps|] == steps;
  }

  // ----- what the protocol promises -----

  /** In every reachable state a queued task finds an awake worker or an outstanding notification. */
  lemma NoLostWakeup<T(!new)>(n: nat, steps: seq<Step<T>>)
    requires n >= 1
    ensures var s := Run(n, steps);
            && (s.tasks != [] ==> Awake(s) || s.owedOne > 0 || s.owedAll)
            && (s.stop && !s.owedAll ==> NoneWaiting(s))
  {
    RunInv(n, steps);
  }

  lemma AllExited<T(!new)>(s: Pool<T>)
    requires TasksAccounted(s) && WakeupsKept(s)
    requires forall w :: 0 <= w < |s.workers| ==> s.workers[w].Exited?
    ensures multiset(s.finished) == multiset(s.accepted)
  {
    assert s.workers[0].Exited?;
    assert s.started == s.accepted;
    forall t: T ensures multiset(s.finished)[t] == multiset(s.accepted)[t] {
      assert Balanced(s, t);
      NoneInProgress(s.workers, t);
    }
  }

  /** Tasks are started exactly once, in the order in which they were accepted, and a worker that
      exits leaves no task behind; once all workers have exited, exactly the accepted tasks have
      run to their end. */
  lemma AcceptedTasksRun<T(!new)>(n: nat, steps: seq<Step<T>>)
    requires n >= 1
    ensures var s := Run(n, steps);
            && s.started <= s.accepted
            && (forall w :: 0 <= w < |s.workers| && s.workers[w].Exited? ==>
                  s.stop && s.started == s.accepted)
            && ((forall w :: 0 <= w < |s.workers| ==> s.workers[w].Exited?) ==>
                  multiset(s.finished) == multiset(s.accepted))
  {
    RunInv(n, steps);
    var s := Run(n, steps);
    if forall w :: 0 <= w < |s.workers| ==> s.workers[w].Exited? { AllExited(s); }
  }

  // ----- shutdown completes -----

  function Weight<T>(worker: Worker<T>): nat {
    match worker
    case Exited => 0
    case Checking => 1
    case Waiting => 2
    case Running(_) => 2
  }

  function Weights<T>(workers: seq<Worker<T>>): nat {
    if workers == [] then 0
    else Weights(workers[..|workers| - 1]) + Weight(workers[|workers| - 1])
  }

  /** How many more steps can have an effect once stop is set. */
  function Remaining<T>(s: Pool<T>): nat {
    3 * |s.tasks| + s.owedOne + (if s.owedAll then 1 else 0) + Weights(s.workers)
  }

  lemma {:induction false} WeightsUpdate<T>(ws: seq<Worker<T>>, w: nat, x: Worker<T>)
    requires w < |ws|
    ensures Weights(ws[w := x]) + Weight(ws[w]) == Weights(ws) + Weight(x)
  {
    var n := |ws| - 1;
    if w < n {
      assert ws[w := x][..n] == ws[..n][w := x];
      WeightsUpdate(ws[..n], w, x);
    } else {
      assert ws[w := x][..n] == ws[..n];
    }
  }

  lemma {:induction false} WeightsWoken<T>(ws: seq<Worker<T>>, vs: seq<Worker<T>>)
    requires |ws| == |vs| && forall i :: 0 <= i < |ws| ==> vs[i] == WokenUp(ws[i])
    ensures Weights(vs) <= Weights(ws)
  {
    if ws != [] { WeightsWoken(ws[..|ws| - 1], vs[..|vs| - 1]); }
  }

  /** After stop, every step that changes anything uses up what remains. */
  lemma StepsUseUp<T>(s: Pool<T>, step: Step<T>)
    requires s.stop && Next(s, step) != s
    ensures Next(s, step).stop && Remaining(Next(s, step)) < Remaining(s)
  {
    var s' := Next(s, step);
    match step
    case NotifyOne(w) =>
      if w < |s.workers| && s.workers[w].Waiting? { WeightsUpdate(s.workers, w, Checking); }
    case NotifyAll => WeightsWoken(s.workers, s'.workers);
    case Check(w) => WeightsUpdate(s.workers, w, s'.workers[w]);
    case Finish(w) => WeightsUpdate(s.workers, w, Checking);
    case WakeUp(w) => WeightsUpdate(s.workers, w, Checking);
    case Enqueue(_) =>
    case Shutdown =>
  }

  /** The first of a worker's remaining steps that can have an effect. */
  function Helpful<T>(s: Pool<T>, w: nat): Step<T>
    requires w < |s.workers|
  {
    match s.workers[w]
    case Running(_) => Finish(w)
    case Waiting => NotifyAll
    case _ => Check(w)
  }

  /** After stop, as long as some worker has not exited, some step has an effect. */
  lemma NotStuck<T>(s: Pool<T>, w: nat)
    requires WakeupsKept(s) && s.stop && w < |s.workers| && !s.workers[w].Exited?
    ensures Next(s, Helpful(s, w)) != s
  {
    match s.workers[w]
    case Running(_) => assert Next(s, Finish(w)).workers[w].Checking?;
    case Waiting => assert s.owedAll;
    case Checking => assert !CheckStep(s, w).workers[w].Checking?;
  }

  function RunFrom<T>(s: Pool<T>, steps: seq<Step<T>>): Pool<T>
    decreases |steps|
  {
    if steps == [] then s else RunFrom(Next(s, steps[0]), steps[1..])
  }

  /** From any stopped state a bounded number of steps makes all workers exit with every accepted
      task run: shutdown's joins return, given that tasks end. */
  lemma {:induction false} ShutdownCompletes<T(!new)>(s: Pool<T>) returns (steps: seq<Step<T>>)
    requires TasksAccounted(s) && WakeupsKept(s) && s.stop
    ensures |steps| <= Remaining(s)
    ensures var end := RunFrom(s, steps);
            && (forall w :: 0 <= w < |end.workers| ==> end.workers[w].Exited?)
            && end.accepted == s.accepted && multiset(end.finished) == multiset(s.accepted)
    decreases Remaining(s)
  {
    if forall w :: 0 <= w < |s.workers| ==> s.workers[w].Exited? {
      steps := [];
      AllExited(s);
    } else {
      hide TasksAccounted, WakeupsKept, Next, Helpful, Remaining;
      var w: nat :| w < |s.workers| && !s.workers[w].Exited?;
      var step := Helpful(s, w);
      NotStuck(s, w);
      StepsUseUp(s, step);
      NextKeepsTasks(s, step);
      NextKeepsWakeups(s, step);
      var more := ShutdownCompletes(Next(s, step));
      steps := [step] + more;
      assert steps[1..] == more;
    }
  }

  /** No schedule can keep a stopped pool busy for longer than that. */
  lemma {:induction false} ShutdownIsBounded<T>(s: Pool<T>, steps: seq<Step<T>>)
    requires s.stop
    requires forall i :: 0 <= i < |steps| ==>
               Next(RunFrom(s, steps[..i]), steps[i]) != RunFrom(s, steps[..i])
    ensures |steps| <= Remaining(s)
    decreases |steps|
  {
    if steps != [] {
      assert steps[..0] == [] && RunFrom(s, steps[..0]) == s;
      StepsUseUp(s, steps[0]);
      var s', tail := Next(s, steps[0]), steps[1..];
      forall i | 0 <= i < |tail|
        ensures Next(RunFrom(s', tail[..i]), tail[i]) != RunFrom(s', tail[..i])
      {
        assert steps[..i + 1][0] == steps[0] && steps[..i + 1][1..] == tail[..i];
        assert RunFrom(s, steps[..i + 1]) == RunFrom(s', tail[..i]);
        assert Next(RunFrom(s, steps[..i + 1]), steps[i + 1]) != RunFrom(s, steps[..i + 1]);
      }
      ShutdownIsBounded(s', tail);
    }
  }
}
