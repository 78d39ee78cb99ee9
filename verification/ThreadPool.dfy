/**
 The thread pool as the source's class: enqueue, submit, shutdown and the worker loop change the
 queue and the stop flag under the mutex. Each critical section is proved to be one step of
 PoolMachine; other threads run in between as a schedule says.
 */
module Threads {
  import opened PoolMachine

  /** The step is not one that worker w takes itself. */
  predicate NotBy<T>(w: nat, step: Step<T>) {
    match step
    case Check(v) => v != w
    case Finish(v) => v != w
    case _ => true
  }

  predicate Others<T>(w: nat, steps: seq<Step<T>>) {
    forall i :: 0 <= i < |steps| ==> NotBy(w, steps[i])
  }

  /** Others can do no more to a worker than wake it up. */
  lemma OthersOnlyWake<T>(s: Pool<T>, step: Step<T>, w: nat)
    requires w < |s.workers| && NotBy(w, step)
    ensures var s' := Next(s, step);
            && |s'.workers| == |s.workers|
            && (s'.workers[w] == s.workers[w] || (s.workers[w].Waiting? && s'.workers[w].Checking?))
  {
  }

  /** One turn of worker w's loop: the others' steps and then its own next one, if it is not waiting. */
  ghost predicate Turn<T>(n: nat, w: nat, others: seq<Step<T>>, before: seq<Step<T>>, after: seq<Step<T>>)
    requires w < |Run(n, before + others).workers|
  {
    after == before + others + (match Run(n, before + others).workers[w]
                                case Running(_) => [Finish(w)]
                                case Checking => [Check(w)]
                                case _ => [])
  }

  /** A turn for each round, given the histories in between; all rounds are used unless the worker
      returned. */
  ghost predicate Turns<T>(n: nat, w: nat, rounds: seq<seq<Step<T>>>, returned: bool, histories: seq<seq<Step<T>>>) {
    && 0 < |histories| <= |rounds| + 1
    && (!returned ==> |histories| == |rounds| + 1)
    && forall k :: 0 <= k < |histories| - 1 ==>
         w < |Run(n, histories[k] + rounds[k]).workers| && Turn(n, w, rounds[k], histories[k], histories[k + 1])
  }

  lemma TurnsMore<T>(n: nat, w: nat, rounds: seq<seq<Step<T>>>, i: nat, returned: bool,
                     histories: seq<seq<Step<T>>>, after: seq<Step<T>>)
    requires i < |rounds| && Turns(n, w, rounds[..i], false, histories)
    requires w < |Run(n, histories[i] + rounds[i]).workers| && Turn(n, w, rounds[i], histories[i], after)
    ensures Turns(n, w, if returned then rounds else rounds[..i + 1], returned, histories + [after])
  {
    hide Run, Turn;
    var all := histories + [after];
    forall k | 0 <= k < |all| - 1
      ensures w < |Run(n, all[k] + rounds[k]).workers| && Turn(n, w, rounds[k], all[k], all[k + 1])
    {
      if k < i { assert Turn(n, w, rounds[..i][k], histories[k], histories[k + 1]); }
    }
  }

  class ThreadPool<T(!new)> {
    var tasks: seq<T>
    var stop: bool
    // the scheduler's view of the threads, and the histories of the machine
    var workers: seq<Worker<T>>
    var owedOne: nat
    var owedAll: bool
    var accepted: seq<T>
    var started: seq<T>
    var finished: seq<T>
    ghost var history: seq<Step<T>>

    function Abs(): Pool<T>
      reads this
    {
      Pool(workers, tasks, stop, owedOne, owedAll, accepted, started, finished)
    }

    /** The object is in the state that its recorded steps lead to. */
    ghost predicate Valid()
      reads this
    {
      |workers| >= 1 && Abs() == Run(|workers|, history)
    }

    /** Zero asks for all hardware threads but two; there is always at least one worker. */
    constructor (numThreads: nat, hardware: nat)
      ensures Valid() && history == [] && !stop
      ensures |workers| == if numThreads != 0 then numThreads
                           else if hardware > 2 then hardware - 2 else 1
    {
      var n := numThreads;
      if n == 0 { n := if hardware > 2 then hardware - 2 else 1; }
      tasks, stop, owedOne, owedAll := [], false, 0, false;
      workers := seq(n, (_: nat) => Checking);
      accepted, started, finished, history := [], [], [], [];
    }

    /** Any thread takes a step. */
    method Perform(step: Step<T>)
      requires Valid()
      modifies this
      ensures Valid() && Abs() == Next(old(Abs()), step) && history == old(history) + [step]
      ensures |workers| == old(|workers|)
    {
      hide Run;
      var s := Next(Abs(), step);
      workers, tasks, stop, owedOne, owedAll := s.workers, s.tasks, s.stop, s.owedOne, s.owedAll;
      accepted, started, finished := s.accepted, s.started, s.finished;
      RunSnoc(|workers|, history, step);
      history := history + [step];
    }

    // ----- enqueue, submit, shutdown -----

    /** enqueue's critical section: after stop the task is dropped. */
    method Enqueue(task: T)
      requires Valid()
      modifies this
      ensures Valid() && history == old(history) + [Step.Enqueue(task)]
      ensures accepted == old(accepted) + if old(stop) then [] else [task]
    {
      hide Run;
      if !stop {
        tasks := tasks + [task];
        accepted, owedOne := accepted + [task], owedOne + 1;
      }
      RunSnoc(|workers|, history, Step.Enqueue(task));
      history := history + [Step.Enqueue(task)];
    }

    /** submit's critical section: after stop it throws, otherwise it queues the task. */
    method Submit(task: T) returns (thrown: bool)
      requires Valid()
      modifies this
      ensures Valid() && thrown == old(stop)
      ensures history == old(history) + if thrown then [] else [Step.Enqueue(task)]
      ensures accepted == old(accepted) + if thrown then [] else [task]
    {
      thrown := stop;
      if thrown { return; }
      Enqueue(task);
    }

    /** shutdown's critical section: only the first call goes on to notify. */
    method Shutdown() returns (first: bool)
      requires Valid()
      modifies this
      ensures Valid() && history == old(history) + [Step.Shutdown]
      ensures stop && first == !old(stop) && owedAll == (old(owedAll) || first)
    {
      hide Run;
      first := !stop;
      if !stop { stop, owedAll := true, true; }
      RunSnoc(|workers|, history, Step.Shutdown);
      history := history + [Step.Shutdown];
    }

    // ----- worker_loop -----

    /** Other threads run. */
    method Interleave(w: nat, others: seq<Step<T>>)
      requires Valid() && w < |workers| && Others(w, others)
      modifies this
      ensures Valid() && |workers| == old(|workers|) && history == old(history) + others
      ensures workers[w] == old(workers[w]) || (old(workers[w]).Waiting? && workers[w].Checking?)
    {
      hide Next, Run;
      for k := 0 to |others|
        invariant Valid() && |workers| == old(|workers|) && history == old(history) + others[..k]
        invariant workers[w] == old(workers[w]) || (old(workers[w]).Waiting? && workers[w].Checking?)
      {
        OthersOnlyWake(Abs(), others[k], w);
        Perform(others[k]);
      }
      assert others[..|others|] == others;
    }

    /** The critical section of worker_loop: test the wait predicate, return, or take the front. */
    method TakeTask(w: nat) returns (exit: bool)
      requires Valid() && w < |workers| && workers[w].Checking?
      modifies this
      ensures Valid() && |workers| == old(|workers|) && history == old(history) + [Check(w)]
      ensures exit == workers[w].Exited? && stop == old(stop)
      ensures workers[w].Exited? <==> old(stop && tasks == [])
      ensures workers[w].Waiting? <==> old(!stop && tasks == [])
      ensures old(tasks) != [] ==> workers[w] == Running(old(tasks)[0]) && tasks == old(tasks)[1..]
    {
      hide Run;
      exit := false;
      if !(stop || tasks != []) {
        workers := workers[w := Waiting];
      } else if stop && tasks == [] {
        workers, exit := workers[w := Exited], true;
      } else {
        var task := tasks[0];
        tasks := tasks[1..];
        workers, started := workers[w := Running(task)], started + [task];
      }
      RunSnoc(|workers|, history, Check(w));
      history := history + [Check(w)];
    }

    /** worker_loop, for as many turns as the schedule has rounds: true if it returned. Every turn is the
        others' steps and the worker's own next one. A worker returns only after stop with an empty
        queue, and every task it took it has also run; alone after stop, it empties the queue and
        returns within two turns for each task and one more. */
    method WorkerLoop(w: nat, rounds: seq<seq<Step<T>>>) returns (returned: bool, ghost histories: seq<seq<Step<T>>>)
      requires Valid() && w < |workers| && workers[w].Checking?
      requires forall i :: 0 <= i < |rounds| ==> Others(w, rounds[i])
      modifies this
      ensures Valid() && |workers| == old(|workers|) && Turns(|workers|, w, rounds, returned, histories)
      ensures histories[0] == old(history) && histories[|histories| - 1] == history
      ensures returned == workers[w].Exited?
      ensures returned ==> stop && tasks == [] && started == accepted
      ensures old(stop) && (forall i :: 0 <= i < |rounds| ==> rounds[i] == []) && |rounds| > 2 * |old(tasks)|
              ==> returned
    {
      hide Run;
      histories := [history];
      ghost var alone := stop && forall i :: 0 <= i < |rounds| ==> rounds[i] == [];
      for i := 0 to |rounds|
        invariant Valid() && |workers| == old(|workers|) && |histories| == i + 1
        invariant Turns(|workers|, w, rounds[..i], false, histories)
        invariant histories[0] == old(history) && histories[i] == history
        invariant !workers[w].Exited?
        invariant alone ==> stop && !workers[w].Waiting?
                            && 2 * |tasks| + (if workers[w].Running? then 1 else 0) + i <= 2 * |old(tasks)|
      {
        ghost var before := Abs();
        Interleave(w, rounds[i]);
        if rounds[i] == [] {
          assert histories[i] + rounds[i] == histories[i];
          SameHistory(before);
        }
        returned := Act(w);
        TurnsMore(|workers|, w, rounds, i, returned, histories, history);
        histories := histories + [history];
        if returned {
          RunInv(|workers|, history);
          return;
        }
      }
      assert rounds[..|rounds|] == rounds;
      returned := false;
    }

    lemma SameHistory(before: Pool<T>)
      requires Valid() && before == Run(|workers|, history)
      ensures Abs() == before
    {
    }

    /** The worker's own step in a turn. */
    method Act(w: nat) returns (returned: bool)
      requires Valid() && w < |workers| && !workers[w].Exited?
      modifies this
      ensures Valid() && |workers| == old(|workers|)
      ensures history == old(history) + (match old(workers[w])
                                         case Running(_) => [Finish(w)]
                                         case Checking => [Check(w)]
                                         case _ => [])
      ensures returned == workers[w].Exited? && stop == old(stop)
      ensures returned ==> stop && tasks == []
      ensures old(workers[w].Running?) ==> workers[w].Checking? && tasks == old(tasks)
      ensures old(workers[w].Checking?) && old(tasks) != [] ==> workers[w].Running? && tasks == old(tasks)[1..]
      ensures old(workers[w].Checking?) && old(stop) && old(tasks) == [] ==> returned
    {
      match workers[w]
      case Waiting => return false;
      case Running(_) =>
        Perform(Finish(w));
        return false;
      case Checking =>
        returned := TakeTask(w);
    }
  }
}
