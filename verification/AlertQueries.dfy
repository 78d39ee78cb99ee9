/**
 The alert engine on top of the time-series store: when a rule fires, in terms of the entries that
 were inserted.
 */
module AlertQueries {
  import opened Prelude
  import opened AlertRules
  import AlertEngine
  import Tenants
  import S = TsdbSpec

  /** The entries of a rule's app and level that lie in its window: those the store was loaded with and
      those inserted since, whether or not they have been evicted. */
  function InWindow(c: Config, start: S.Store, inserts: seq<S.Op>, now: int): nat {
    var cutoff := now - c.windowSeconds * S.SECOND;
    |S.Select(S.Vec(start, c.app), cutoff, c.level)| + S.WantedInsertions(inserts, c.app, cutoff, c.level)
  }

  /** After any run of the engine and any run of its store, a rule with a window of at most 24 hours
      fires exactly when more entries than its threshold lie in its window and the cooldown of every
      earlier firing of its id is over. */
  lemma FiresOnEntries(ops: seq<Op>, i: nat, now: int, start: S.Store, storeOps: seq<S.Op>, queryNow: int)
    requires Clocked(ops, now) && i < |Run(ops).rules| && Steady(Files(ops), Run(ops).rules[i].config.id)
    requires S.Sorted(S.Vec(start, Run(ops).rules[i].config.app)) && S.ClockReached(storeOps, queryNow)
    requires Run(ops).rules[i].config.windowSeconds <= S.DAY
    ensures var r := Run(ops).rules[i];
            var c, earlier := r.config, FiringsOf(Run(ops).fired, r.config.id);
            var count := |S.Logs(S.Run(start, storeOps), c.app, c.level, c.windowSeconds, queryNow)|;
            Fires(r, now, Some(count)) <==>
            && InWindow(c, start, storeOps, queryNow) > c.threshold
            && forall k :: 0 <= k < |earlier| ==> earlier[k].End() <= now
  {
    hide Run, FiringsOf, Steady, Clocked, Fires, S.Run, S.Logs, S.Select, S.WantedInsertions, S.ClockReached, S.Sorted;
    var c := Run(ops).rules[i].config;
    var count := |S.Logs(S.Run(start, storeOps), c.app, c.level, c.windowSeconds, queryNow)|;
    S.QueryCountsInsertions(start, storeOps, c.app, c.level, c.windowSeconds, queryNow);
    FiresIff(ops, i, now, Some(count));
  }

  /** The same of the engine as an object, with the store it chooses for the rule: its project's, the
      default project's, or the single one. */
  lemma FiresOnChosenStore(engine: AlertEngine.AlertRulesEngine, i: nat, at: AlertEngine.Reading,
                           start: S.Store, storeOps: seq<S.Op>)
    requires engine.Valid() && i < |engine.rules| && Clocked(engine.ops, at.now)
    requires var c := engine.rules[i].rule;
             && Steady(Files(engine.ops), c.id) && c.windowSeconds <= 86400
             && S.Sorted(S.Vec(start, c.app)) && S.ClockReached(storeOps, at.queryNow)
             && (engine.tenants == null ==> engine.single != null && engine.single.Abs() == S.Run(start, storeOps))
             && (engine.tenants != null ==>
                   var pid := if c.projectId != [] then c.projectId else engine.tenants.defaultId;
                   && pid != []
                   && Tenants.Before(engine.tenants.Stores(), at.files, pid, at.now) == S.Run(start, storeOps))
    ensures var r := engine.rules[i].Abs();
            var earlier := FiringsOf(Run(engine.ops).fired, r.config.id);
            Fires(r, at.now, engine.Answer(r.config, at)) <==>
            && InWindow(r.config, start, storeOps, at.queryNow) > r.config.threshold
            && forall k :: 0 <= k < |earlier| ==> earlier[k].End() <= at.now
  {
    hide Run, FiringsOf, Steady, Clocked, Files, Fires, S.Run, S.Logs, S.Sorted, S.ClockReached;
    var r := engine.rules[i].Abs();
    assert Run(engine.ops).rules[i] == r;
    FiresOnEntries(engine.ops, i, at.now, start, storeOps, at.queryNow);
    engine.AnswerIs(r.config, at);
  }
}
