/**
 Routing under interleaving: any number of concurrent callers, each looking up a project, finding or
 creating its store under a two-phase lock, and inserting. One step per lock-protected section; the
 project store and the eviction threads step in between. A request is one caller's entry, and the
 events of a store remember which request each insertion came from.
 */
module TenantMachine {
  import opened Prelude
  import S = TsdbSpec
  import P = ProjectSpec

  /** How far a request has got: looked up; not found under the shared lock; holding a store; done. */
  datatype Stage = Routed | Missed | Held(ref: nat) | Inserted(ref: nat)

  datatype Request = Request(pid: Bytes, entry: S.Entry, stage: Stage)

  datatype Event = Ingest(request: nat, entry: S.Entry) | Eviction(clock: int)

  datatype Tenant = Tenant(pid: Bytes, start: S.Store, store: S.Store, events: seq<Event>)

  datatype State = State(live: seq<P.Project>, tsdbs: map<Bytes, nat>, tenants: seq<Tenant>, requests: seq<Request>)

  datatype Step =
    | Admin(op: P.Op)
    | Route(key: Bytes, entry: S.Entry)
    | Direct(pid: Bytes, entry: S.Entry)
    | Shared(i: nat)
    | Exclusive(i: nat, loaded: S.Store)
    | Insert(i: nat)
    | Evict(ref: nat, clock: int)

  /** find_by_api_key on the live projects. */
  function OwnerOf(live: seq<P.Project>, key: Bytes): Option<P.Project> {
    if live == [] then None
    else if live[|live| - 1].apiKey == key then Some(live[|live| - 1])
    else OwnerOf(live[..|live| - 1], key)
  }

  /** ingest_to_project ignores the empty project id. */
  function Begin(s: State, pid: Bytes, entry: S.Entry): State {
    if pid == [] then s else s.(requests := s.requests + [Request(pid, entry, Routed)])
  }

  function SetStage(s: State, i: nat, stage: Stage): State
    requires i < |s.requests|
  {
    s.(requests := s.requests[i := s.requests[i].(stage := stage)])
  }

  function Create(s: State, pid: Bytes, loaded: S.Store): State {
    s.(tsdbs := s.tsdbs[pid := |s.tenants|], tenants := s.tenants + [Tenant(pid, loaded, loaded, [])])
  }

  function Deliver(s: State, ref: nat, i: nat): State
    requires i < |s.requests| && ref < |s.tenants|
  {
    var t, e := s.tenants[ref], s.requests[i].entry;
    s.(tenants := s.tenants[ref := t.(store := S.Insert(t.store, e), events := t.events + [Ingest(i, e)])])
  }

  /** One step; a step that is not enabled changes nothing. */
  function Next(s: State, step: Step): State {
    match step
    case Admin(op) => s.(live := P.Next(s.live, op))
    case Route(key, entry) =>
      (match OwnerOf(s.live, key)
       case None => s
       case Some(p) => Begin(s, p.id, entry))
    case Direct(pid, entry) => Begin(s, pid, entry)
    case Shared(i) =>
      if i < |s.requests| && s.requests[i].stage == Routed then
        var pid := s.requests[i].pid;
        SetStage(s, i, if pid in s.tsdbs then Held(s.tsdbs[pid]) else Missed)
      else s
    case Exclusive(i, loaded) =>
      if i < |s.requests| && s.requests[i].stage == Missed then
        var pid := s.requests[i].pid;
        if pid in s.tsdbs then SetStage(s, i, Held(s.tsdbs[pid]))
        else SetStage(Create(s, pid, loaded), i, Held(|s.tenants|))
      else s
    case Insert(i) =>
      if i < |s.requests| && s.requests[i].stage.Held? && s.requests[i].stage.ref < |s.tenants| then
        var ref := s.requests[i].stage.ref;
        SetStage(Deliver(s, ref, i), i, Inserted(ref))
      else s
    case Evict(ref, clock) =>
      if ref < |s.tenants| then
        var t := s.tenants[ref];
        s.(tenants := s.tenants[ref := t.(store := S.Evict(t.store, clock), events := t.events + [Eviction(clock)])])
      else s
  }

  function Run(live: seq<P.Project>, steps: seq<Step>): State {
    if steps == [] then State(live, map[], [], []) else Next(Run(live, steps[..|steps| - 1]), steps[|steps| - 1])
  }

  // ----- the invariant -----

  /** The map and the stores name each other. */
  ghost predicate MapOk(s: State) {
    && (forall pid :: pid in s.tsdbs ==> s.tsdbs[pid] < |s.tenants| && s.tenants[s.tsdbs[pid]].pid == pid)
    && (forall ref :: 0 <= ref < |s.tenants| ==> s.tenants[ref].pid in s.tsdbs && s.tsdbs[s.tenants[ref].pid] == ref)
  }

  /** A request that has a store has its project's store. */
  ghost predicate HeldOk(s: State) {
    forall i :: 0 <= i < |s.requests| && (s.requests[i].stage.Held? || s.requests[i].stage.Inserted?) ==>
      s.requests[i].pid in s.tsdbs && s.tsdbs[s.requests[i].pid] == s.requests[i].stage.ref
  }

  /** Every insertion into a store comes from a request that is done with that store. */
  ghost predicate EventsOk(s: State) {
    forall ref, k :: 0 <= ref < |s.tenants| && 0 <= k < |s.tenants[ref].events| && s.tenants[ref].events[k].Ingest? ==>
      var e := s.tenants[ref].events[k];
      e.request < |s.requests| && s.requests[e.request].stage == Inserted(ref) && s.requests[e.request].entry == e.entry
  }

  ghost predicate Once(t: Tenant) {
    forall j, k :: 0 <= j < k < |t.events| && t.events[j].Ingest? && t.events[k].Ingest? ==>
      t.events[j].request != t.events[k].request
  }

  ghost predicate Contains(t: Tenant, i: nat, e: S.Entry) { Ingest(i, e) in t.events }

  /** Every request that is done has its insertion, once. */
  ghost predicate DoneOk(s: State) {
    && (forall i :: 0 <= i < |s.requests| && s.requests[i].stage.Inserted? ==>
          s.requests[i].stage.ref < |s.tenants| && Contains(s.tenants[s.requests[i].stage.ref], i, s.requests[i].entry))
    && (forall ref :: 0 <= ref < |s.tenants| ==> Once(s.tenants[ref]))
  }

  function Replay(start: S.Store, events: seq<Event>): S.Store {
    if events == [] then start
    else
      var s := Replay(start, events[..|events| - 1]);
      match events[|events| - 1]
      case Ingest(_, e) => S.Insert(s, e)
      case Eviction(clock) => S.Evict(s, clock)
  }

  /** A store's contents are its events, in order. */
  ghost predicate ContentsOk(s: State) {
    forall ref :: 0 <= ref < |s.tenants| ==> s.tenants[ref].store == Replay(s.tenants[ref].start, s.tenants[ref].events)
  }

  ghost predicate Inv(s: State) { MapOk(s) && HeldOk(s) && EventsOk(s) && DoneOk(s) && ContentsOk(s) }

  lemma BeginKeeps(s: State, pid: Bytes, entry: S.Entry)
    requires Inv(s)
    ensures Inv(Begin(s, pid, entry))
  {
    hide Contains, Once, Replay;
  }

  lemma WaitKeeps(s: State, i: nat, stage: Stage)
    requires Inv(s) && i < |s.requests| && !s.requests[i].stage.Inserted? && !stage.Inserted?
    requires stage.Held? ==> s.requests[i].pid in s.tsdbs && s.tsdbs[s.requests[i].pid] == stage.ref
    ensures Inv(SetStage(s, i, stage))
  {
    hide Contains, Once, Replay;
  }

  lemma CreateKeeps(s: State, pid: Bytes, loaded: S.Store)
    requires Inv(s) && pid !in s.tsdbs
    ensures Inv(Create(s, pid, loaded))
  {
    hide Contains;
  }

  lemma EvictKeeps(s: State, ref: nat, clock: int)
    requires Inv(s) && ref < |s.tenants|
    ensures Inv(Next(s, Evict(ref, clock)))
  {
    var t, t' := s.tenants[ref], Next(s, Evict(ref, clock)).tenants[ref];
    assert t'.events[..|t.events|] == t.events;
    assert forall i, e :: Contains(t, i, e) ==> Contains(t', i, e);
    assert Once(t');
    assert t'.store == Replay(t'.start, t'.events);
    hide Contains, Once, Replay, S.Evict;
  }

  /** A store after one more insertion. */
  lemma InsertedTenant(t: Tenant, t': Tenant, i: nat, e: S.Entry)
    requires t' == t.(store := S.Insert(t.store, e), events := t.events + [Ingest(i, e)])
    requires Once(t) && forall k :: 0 <= k < |t.events| && t.events[k].Ingest? ==> t.events[k].request != i
    requires t.store == Replay(t.start, t.events)
    ensures Once(t') && t'.store == Replay(t'.start, t'.events) && Contains(t', i, e)
    ensures forall j, f :: Contains(t, j, f) ==> Contains(t', j, f)
  {
    hide S.Insert;
    assert t'.events[..|t.events|] == t.events;
    assert t'.events[|t.events|] == Ingest(i, e);
  }

  lemma InsertKeeps(s: State, i: nat)
    requires Inv(s) && i < |s.requests| && s.requests[i].stage.Held?
    ensures Inv(Next(s, Insert(i)))
  {
    hide Contains, Once, Replay, S.Insert;
    var ref := s.requests[i].stage.ref;
    var s' := Next(s, Insert(i));
    InsertedTenant(s.tenants[ref], s'.tenants[ref], i, s.requests[i].entry);
    InsertEvents(s, i);
  }

  lemma InsertEvents(s: State, i: nat)
    requires MapOk(s) && HeldOk(s) && EventsOk(s) && i < |s.requests| && s.requests[i].stage.Held?
    ensures EventsOk(Next(s, Insert(i)))
  {
    hide S.Insert;
    var s' := Next(s, Insert(i));
    forall ref, k | 0 <= ref < |s'.tenants| && 0 <= k < |s'.tenants[ref].events| && s'.tenants[ref].events[k].Ingest?
      ensures var e := s'.tenants[ref].events[k];
              && e.request < |s'.requests| && s'.requests[e.request].stage == Inserted(ref)
              && s'.requests[e.request].entry == e.entry
    {
      if ref != s.requests[i].stage.ref || k < |s.tenants[ref].events| {
        assert s'.tenants[ref].events[k] == s.tenants[ref].events[k];
      }
    }
  }

  lemma {:induction false} RunInv(live: seq<P.Project>, steps: seq<Step>)
    ensures Inv(Run(live, steps))
    decreases |steps|
  {
    if steps != [] {
      var s := Run(live, steps[..|steps| - 1]);
      RunInv(live, steps[..|steps| - 1]);
      StepKeeps(s, steps[|steps| - 1]);
    }
  }

  lemma StepKeeps(s: State, step: Step)
    requires Inv(s)
    ensures Inv(Next(s, step))
  {
    match step
    case Admin(op) => AdminKeeps(s, op);
    case Route(key, entry) => if OwnerOf(s.live, key).Some? { BeginKeeps(s, OwnerOf(s.live, key).value.id, entry); }
    case Direct(pid, entry) => BeginKeeps(s, pid, entry);
    case Shared(i) =>
      if i < |s.requests| && s.requests[i].stage == Routed {
        var pid := s.requests[i].pid;
        WaitKeeps(s, i, if pid in s.tsdbs then Held(s.tsdbs[pid]) else Missed);
      }
    case Exclusive(i, loaded) =>
      if i < |s.requests| && s.requests[i].stage == Missed {
        var pid := s.requests[i].pid;
        if pid in s.tsdbs { WaitKeeps(s, i, Held(s.tsdbs[pid])); }
        else {
          CreateKeeps(s, pid, loaded);
          WaitKeeps(Create(s, pid, loaded), i, Held(|s.tenants|));
        }
      }
    case Insert(i) => if i < |s.requests| && s.requests[i].stage.Held? { InsertKeeps(s, i); }
    case Evict(ref, clock) => if ref < |s.tenants| { EvictKeeps(s, ref, clock); }
  }

  lemma AdminKeeps(s: State, op: P.Op)
    requires Inv(s)
    ensures Inv(Next(s, Admin(op)))
  {
    hide Contains, Once, Replay;
  }

  // ----- one store for each project, the same for every caller -----

  /** No project ever has two stores, and every store is the one the map gives its project. */
  lemma OneStorePerProject(live: seq<P.Project>, steps: seq<Step>, r1: nat, r2: nat)
    requires r1 < |Run(live, steps).tenants| && r2 < |Run(live, steps).tenants|
    requires Run(live, steps).tenants[r1].pid == Run(live, steps).tenants[r2].pid
    ensures r1 == r2
  {
    RunInv(live, steps);
    hide Run;
  }

  /** What later steps never change: the stores in the map, and a request's project and entry. */
  ghost predicate Extends(s: State, s': State) {
    && (forall pid :: pid in s.tsdbs ==> pid in s'.tsdbs && s'.tsdbs[pid] == s.tsdbs[pid])
    && |s.requests| <= |s'.requests|
    && (forall i :: 0 <= i < |s.requests| ==>
          s'.requests[i].pid == s.requests[i].pid && s'.requests[i].entry == s.requests[i].entry)
  }

  lemma StepExtends(s: State, step: Step)
    ensures Extends(s, Next(s, step))
  {
    hide OwnerOf, S.Insert, S.Evict, P.Next;
  }

  lemma {:induction false} RunExtends(live: seq<P.Project>, steps: seq<Step>, n: nat)
    requires n <= |steps|
    ensures Extends(Run(live, steps[..n]), Run(live, steps))
    decreases |steps|
  {
    if n == |steps| { assert steps[..n] == steps; }
    else {
      var front := steps[..|steps| - 1];
      assert front[..n] == steps[..n];
      RunExtends(live, front, n);
      StepExtends(Run(live, front), steps[|steps| - 1]);
      hide Run, Next;
    }
  }

  /** The caller of request i holds a store, or held it when it was done. */
  ghost predicate HoldsStore(s: State, i: nat) {
    i < |s.requests| && (s.requests[i].stage.Held? || s.requests[i].stage.Inserted?)
  }

  /** Any two callers for one project, at whatever times they hold a store, hold the same one. */
  lemma SameStoreForEveryCaller(live: seq<P.Project>, steps: seq<Step>, n: nat, m: nat, i: nat, j: nat)
    requires n <= m <= |steps|
    requires HoldsStore(Run(live, steps[..n]), i) && HoldsStore(Run(live, steps[..m]), j)
    requires Run(live, steps[..n]).requests[i].pid == Run(live, steps[..m]).requests[j].pid
    ensures Run(live, steps[..n]).requests[i].stage.ref == Run(live, steps[..m]).requests[j].stage.ref
  {
    RunInv(live, steps[..n]);
    RunInv(live, steps[..m]);
    assert steps[..m][..n] == steps[..n];
    RunExtends(live, steps[..m], n);
    hide Run;
  }

  // ----- every accepted entry, once, where it belongs -----

  /** The insertions a request has in a store. */
  ghost function Insertions(events: seq<Event>, i: nat): nat {
    if events == [] then 0
    else
      var e := events[|events| - 1];
      Insertions(events[..|events| - 1], i) + (if e.Ingest? && e.request == i then 1 else 0)
  }

  lemma {:induction false} NoInsertion(events: seq<Event>, i: nat)
    requires forall k :: 0 <= k < |events| && events[k].Ingest? ==> events[k].request != i
    ensures Insertions(events, i) == 0
    decreases |events|
  {
    if events != [] { NoInsertion(events[..|events| - 1], i); }
  }

  lemma {:induction false} OneInsertion(events: seq<Event>, i: nat, n: nat)
    requires n < |events| && events[n].Ingest? && events[n].request == i
    requires forall k :: 0 <= k < |events| && k != n && events[k].Ingest? ==> events[k].request != i
    ensures Insertions(events, i) == 1
    decreases |events|
  {
    var front := events[..|events| - 1];
    if n == |front| { NoInsertion(front, i); } else { OneInsertion(front, i, n); }
  }

  /** After any run, a request that is done has exactly one insertion, in its project's store; a
      request that is not done has none; and no other store has any of it. */
  lemma InsertedOnce(live: seq<P.Project>, steps: seq<Step>, i: nat, ref: nat)
    requires i < |Run(live, steps).requests| && ref < |Run(live, steps).tenants|
    ensures var s := Run(live, steps);
            Insertions(s.tenants[ref].events, i)
            == if s.requests[i].stage.Inserted? && s.tenants[ref].pid == s.requests[i].pid then 1 else 0
  {
    RunInv(live, steps);
    var s := Run(live, steps);
    hide Run;
    var t := s.tenants[ref];
    if s.requests[i].stage == Inserted(ref) {
      assert Contains(t, i, s.requests[i].entry) && Once(t);
      var n :| 0 <= n < |t.events| && t.events[n] == Ingest(i, s.requests[i].entry);
      OneInsertion(t.events, i, n);
    } else {
      NoInsertion(t.events, i);
    }
  }

  /** After any run, a store holds its own project's entries and nothing else. */
  lemma StoreHoldsItsOwn(live: seq<P.Project>, steps: seq<Step>, ref: nat)
    requires ref < |Run(live, steps).tenants|
    ensures var s := Run(live, steps);
            var t := s.tenants[ref];
            && t.store == Replay(t.start, t.events)
            && forall k :: 0 <= k < |t.events| && t.events[k].Ingest? ==>
                 var i := t.events[k].request;
                 i < |s.requests| && s.requests[i].pid == t.pid && s.requests[i].entry == t.events[k].entry
  {
    RunInv(live, steps);
    hide Run, Replay;
  }

  /** A store's events as operations on a store by itself. */
  function AsOps(events: seq<Event>): seq<S.Op> {
    if events == [] then []
    else
      AsOps(events[..|events| - 1]) + [match events[|events| - 1]
                                       case Ingest(_, e) => S.Insertion(e)
                                       case Eviction(clock) => S.Op.Eviction(clock)]
  }

  lemma {:induction false} ReplayIsRun(start: S.Store, events: seq<Event>)
    ensures Replay(start, events) == S.Run(start, AsOps(events))
    decreases |events|
  {
    hide S.Insert, S.Evict;
    if events != [] {
      ReplayIsRun(start, events[..|events| - 1]);
      var front := AsOps(events[..|events| - 1]);
      assert AsOps(events)[..|front|] == front;
    }
  }

  /** After any run, a query of a project's store over at most 24 hours, at a clock no eviction was
      ahead of, answers as a store that started from what was loaded, was given exactly that project's
      insertions, in their order, and never evicts: no other project's traffic and no eviction shows. */
  lemma QueriesSeeOwnEntriesOnly(live: seq<P.Project>, steps: seq<Step>, ref: nat,
                                 app: Bytes, level: Bytes, window: int, now: int)
    requires ref < |Run(live, steps).tenants| && S.Sorted(S.Vec(Run(live, steps).tenants[ref].start, app))
    requires S.ClockReached(AsOps(Run(live, steps).tenants[ref].events), now) && window <= S.DAY
    ensures var t := Run(live, steps).tenants[ref];
            S.Logs(t.store, app, level, window, now)
            == S.Logs(S.RunKeepingAll(t.start, AsOps(t.events)), app, level, window, now)
  {
    RunInv(live, steps);
    var t := Run(live, steps).tenants[ref];
    hide Run, S.Logs, S.RunKeepingAll, S.ClockReached;
    ReplayIsRun(t.start, t.events);
    S.EvictionInvisible(t.start, AsOps(t.events), app, level, window, now);
  }

  lemma {:induction false} OwnerIs(live: seq<P.Project>, p: P.Project)
    requires P.WellFormed(live) && p in live
    ensures OwnerOf(live, p.apiKey) == Some(p)
    decreases |live|
  {
    var n := |live| - 1;
    if live[n].apiKey == p.apiKey {
      var i :| 0 <= i < |live| && live[i] == p;
    } else {
      var i :| 0 <= i < |live| && live[i] == p;
      assert live[..n][i] == p;
      OwnerIs(live[..n], p);
    }
  }

  /** What the run did to the project store. */
  function AdminOps(steps: seq<Step>): seq<P.Op> {
    if steps == [] then []
    else
      var front := AdminOps(steps[..|steps| - 1]);
      if steps[|steps| - 1].Admin? then front + [steps[|steps| - 1].op] else front
  }

  lemma {:induction false} LiveIsRun(live: seq<P.Project>, steps: seq<Step>)
    ensures Run(live, steps).live == P.Run(live, AdminOps(steps))
    decreases |steps|
  {
    hide P.Next, S.Insert, S.Evict, OwnerOf;
    if steps != [] {
      LiveIsRun(live, steps[..|steps| - 1]);
      var front, step := AdminOps(steps[..|steps| - 1]), steps[|steps| - 1];
      if step.Admin? { assert (front + [step.op])[..|front|] == front; }
    }
  }

  /** An entry sent under a key goes to the project that owned the key when it was looked up,
      whatever happens to the key afterwards: the request keeps that project for the rest of the run,
      and once it is done its entry is in that project's store, once. Ids and keys that are fresh when
      they are issued make that owner the only one. */
  lemma RoutedToOwner(live: seq<P.Project>, steps: seq<Step>, n: nat, p: P.Project, ref: nat)
    requires n < |steps| && steps[n].Route? && steps[n].key == p.apiKey
    requires P.WellFormed(live) && P.FreshRun(live, AdminOps(steps[..n])) && p in Run(live, steps[..n]).live
    ensures forall q :: q in Run(live, steps[..n]).live && q.apiKey == p.apiKey ==> q == p
    ensures var i, s := |Run(live, steps[..n]).requests|, Run(live, steps);
            && i < |s.requests| && s.requests[i].pid == p.id && s.requests[i].entry == steps[n].entry
            && (ref < |s.tenants| ==>
                  Insertions(s.tenants[ref].events, i)
                  == if s.requests[i].stage.Inserted? && s.tenants[ref].pid == p.id then 1 else 0)
  {
    var before := Run(live, steps[..n]);
    LiveIsRun(live, steps[..n]);
    P.RunRefinesMap(live, AdminOps(steps[..n]));
    OwnerIs(before.live, p);
    assert p.id != [];
    forall q | q in before.live && q.apiKey == p.apiKey ensures q == p { OwnerIs(before.live, q); }
    assert steps[..n + 1][..n] == steps[..n];
    assert Run(live, steps[..n + 1]) == Begin(before, p.id, steps[n].entry);
    RunExtends(live, steps, n + 1);
    if ref < |Run(live, steps).tenants| { InsertedOnce(live, steps, |before.requests|, ref); }
    hide Run;
  }

  /** A key that no live project has is refused: nothing at all changes. */
  lemma UnknownKeyIsRefused(s: State, key: Bytes, entry: S.Entry)
    ensures !P.HasKey(s.live, key) ==> Next(s, Route(key, entry)) == s
  {
    if !P.HasKey(s.live, key) { NoOwner(s.live, key); }
  }

  lemma {:induction false} NoOwner(live: seq<P.Project>, key: Bytes)
    requires !P.HasKey(live, key)
    ensures OwnerOf(live, key) == None
    decreases |live|
  {
    if live != [] {
      var n := |live| - 1;
      assert live[n].apiKey != key;
      forall k | 0 <= k < n ensures live[..n][k].apiKey != key { assert live[k].apiKey != key; }
      NoOwner(live[..n], key);
    }
  }

  /** The steps a request still needs. */
  ghost function Remaining(stage: Stage): nat {
    match stage
    case Routed => 3
    case Missed => 2
    case Held(_) => 1
    case Inserted(_) => 0
  }

  /** The step of its own a request takes next. */
  ghost function OwnStep(stage: Stage, i: nat, loaded: S.Store): Step {
    match stage
    case Routed => Shared(i)
    case Missed => Exclusive(i, loaded)
    case _ => Insert(i)
  }

  /** No caller waits for another: in every reachable state a request that is not done is advanced
      by its own next step. */
  lemma NeverStuck(live: seq<P.Project>, steps: seq<Step>, i: nat, loaded: S.Store)
    requires i < |Run(live, steps).requests| && !Run(live, steps).requests[i].stage.Inserted?
    ensures var s := Run(live, steps);
            var s' := Next(s, OwnStep(s.requests[i].stage, i, loaded));
            i < |s'.requests| && Remaining(s'.requests[i].stage) < Remaining(s.requests[i].stage)
  {
    RunInv(live, steps);
    hide Run;
  }
}
