/**
 The alert engine as the source's classes: one object per rule, updated in place, and an engine that
 swaps its rule objects when it reloads. The engine is proved against the runs of AlertRules.
 */
module AlertEngine {
  import opened Prelude
  import opened AlertRules
  import S = TsdbSpec
  import Tsdb
  import Tenants

  const CHECK_INTERVAL: nat := 10

  class AlertRuleState {
    var rule: Config
    var status: Status
    var lastFired: int
    var cooldownUntil: int
    var fireCount: nat

    ghost function Abs(): Rule
      reads this
    {
      Rule(rule, status, lastFired, cooldownUntil, fireCount)
    }

    constructor (c: Config)
      ensures Abs() == Rule(c, INACTIVE, 0, 0, 0)
    {
      rule, status, lastFired, cooldownUntil, fireCount := c, INACTIVE, 0, 0, 0;
    }
  }

  /** What one evaluation reads: the clock, the clock again for the query, and, if a store has to be
      created, what other threads create meanwhile and the files. */
  datatype Reading = Reading(now: int, queryNow: int, others: seq<Bytes>, files: map<Bytes, Bytes>)

  /** One pass over the rules, with the counts the queries gave. */
  ghost function Pass(readings: nat -> Reading, counts: seq<Option<int>>): seq<Op> {
    seq(|counts|, i requires 0 <= i < |counts| => Evaluation(i, readings(i).now, counts[i]))
  }

  /** The rule is not evaluated any further. */
  ghost predicate Cooling(r: Rule, now: int) { r.status == COOLDOWN && now < r.cooldownUntil }

  /** The last ten of a list of alerts. */
  ghost function Last(alerts: seq<FiredAlert>): seq<FiredAlert> {
    if |alerts| > MAX_HISTORY then alerts[|alerts| - MAX_HISTORY..] else alerts
  }

  lemma RecentAppend(fired: seq<Firing>, f: Firing)
    ensures Recent(fired + [f]) == Last(Recent(fired) + [f.alert])
  {
  }

  /** The last ten alerts. */
  ghost function Recent(fired: seq<Firing>): seq<FiredAlert> {
    var n := |fired|;
    var k := if n > MAX_HISTORY then n - MAX_HISTORY else 0;
    seq(n - k, i requires 0 <= i < n - k => fired[k + i].alert)
  }

  class AlertRulesEngine {
    const single: Tsdb.TSDB?
    const tenants: Tenants.TenantManager?
    var rules: seq<AlertRuleState>
    var history: seq<FiredAlert>
    var reloadPending: bool
    var ticks: nat
    ghost var fired: seq<Firing>
    ghost var ops: seq<Op>

    ghost function Rules(): seq<Rule>
      reads this, rules
    {
      Values(rules)
    }

    /** The rules are distinct objects. */
    ghost predicate Distinct()
      reads this
    {
      forall i, j :: 0 <= i < j < |rules| ==> rules[i] != rules[j]
    }

    ghost predicate Valid()
      reads this, rules
    {
      Distinct() && Engine(Rules(), fired) == Run(ops) && history == Recent(fired)
    }

    /** The source's two constructors: one store for all rules, or a store for each project. */
    constructor (single: Tsdb.TSDB?, tenants: Tenants.TenantManager?, file: Option<seq<Config>>)
      ensures this.single == single && this.tenants == tenants
      ensures Valid() && ops == [Load(file)] && !reloadPending && ticks == 0 && fresh(rules)
    {
      this.single, this.tenants := single, tenants;
      rules, history, reloadPending, ticks, fired, ops := [], [], false, 0, [], [];
      new;
      LoadRules(file);
      assert [] + [Load(file)] == [Load(file)];
    }

    /** reload. */
    method Reload()
      modifies this`reloadPending
      ensures reloadPending
    {
      reloadPending := true;
    }

    /** The history of fire_alert: the last ten. */
    method Remember(alert: FiredAlert)
      modifies this`history
      ensures history == Last(old(history) + [alert])
      ensures var all := old(history) + [alert];
              history == if |all| > 10 then all[|all| - 10..] else all
    {
      history := history + [alert];
      ghost var all := history;
      while |history| > MAX_HISTORY
        invariant |history| <= |all| && history == all[|all| - |history|..]
        invariant |all| > MAX_HISTORY ==> |history| >= MAX_HISTORY
        invariant |all| <= MAX_HISTORY ==> history == all
      {
        history := history[1..];
      }
    }

    /** fire_alert. */
    method FireAlert(rs: AlertRuleState, count: int, now: int)
      requires history == Recent(fired)
      modifies rs, this`history, this`fired
      ensures rs.Abs() == Fire(old(rs.Abs()), now)
      ensures rs.rule == old(rs.rule) && rs.status == COOLDOWN && rs.lastFired == now
      ensures rs.cooldownUntil == now + rs.rule.cooldownSeconds * 1_000_000_000 && rs.fireCount == old(rs.fireCount) + 1
      ensures fired == old(fired) + [FiringOf(old(rs.rule), now, count)]
      ensures history == Recent(fired) && 0 < |history| <= 10
      ensures var a := history[|history| - 1];
              && a.ruleId == rs.rule.id && a.app == rs.rule.app && a.level == rs.rule.level
              && a.notifyUrl == rs.rule.notifyUrl && a.count == count && a.threshold == rs.rule.threshold
              && a.windowSeconds == rs.rule.windowSeconds && a.firedAt == now
    {
      rs.status := FIRING;
      rs.lastFired := now;
      rs.cooldownUntil := now + rs.rule.cooldownSeconds * SECOND;
      rs.fireCount := rs.fireCount + 1;
      var alert := AlertOf(rs.rule, now, count);
      RecentAppend(fired, Firing(alert, rs.rule.cooldownSeconds));
      hide Recent, Last;
      fired := fired + [Firing(alert, rs.rule.cooldownSeconds)];
      Remember(alert);
      rs.status := COOLDOWN;
    }

    ghost function Managers(): (r: set<object>) {
      if tenants == null then {} else {tenants}
    }

    ghost predicate TenantsValid()
      reads Managers()
    {
      tenants != null ==> tenants.Valid()
    }

    /** The project whose store a rule is about. */
    function ProjectOf(c: Config): Bytes
      requires tenants != null
    {
      if c.projectId == [] then tenants.defaultId else c.projectId
    }

    /** How many entries of the rule's store lie in its window, for its app and level; none if the rule
        has no store. */
    ghost function Answer(c: Config, at: Reading): Option<int>
      reads Managers(), if tenants == null then {} else tenants.tsdbs.Values
      reads if single == null then {} else {single}
    {
      if tenants != null then
        var pid := ProjectOf(c);
        if pid == [] then None
        else
          var store := Tenants.Before(tenants.Stores(), at.files, pid, at.now);
          Some(|S.Logs(store, c.app, c.level, c.windowSeconds, at.queryNow)|)
      else if single != null then Some(|S.Logs(single.Abs(), c.app, c.level, c.windowSeconds, at.queryNow)|)
      else None
    }

    /** Whose entries are counted: with tenants, those of the rule's project, or of the default project if
        the rule names none; without, those of the single store. */
    lemma AnswerIs(c: Config, at: Reading)
      ensures tenants == null ==>
                Answer(c, at) == if single == null then None
                                 else Some(|S.Logs(single.Abs(), c.app, c.level, c.windowSeconds, at.queryNow)|)
      ensures tenants != null && c.projectId != [] ==>
                Answer(c, at) == Some(|S.Logs(Tenants.Before(tenants.Stores(), at.files, c.projectId, at.now),
                                              c.app, c.level, c.windowSeconds, at.queryNow)|)
      ensures tenants != null && c.projectId == [] && tenants.defaultId != [] ==>
                Answer(c, at) == Some(|S.Logs(Tenants.Before(tenants.Stores(), at.files, tenants.defaultId, at.now),
                                              c.app, c.level, c.windowSeconds, at.queryNow)|)
      ensures tenants != null && c.projectId == [] && tenants.defaultId == [] ==> Answer(c, at) == None
    {
    }

    /** The part of evaluate_rule that finds the store and queries it. No store's contents change, but
        a project's store may be created. */
    method Query(c: Config, at: Reading) returns (count: Option<int>)
      requires TenantsValid()
      modifies Managers()
      ensures TenantsValid() && count == old(Answer(c, at))
      ensures tenants == null ==>
                count == if single == null then None
                         else Some(|S.Logs(old(single.Abs()), c.app, c.level, c.windowSeconds, at.queryNow)|)
      ensures tenants != null && c.projectId != [] ==>
                count == Some(|S.Logs(old(Tenants.Before(tenants.Stores(), at.files, c.projectId, at.now)),
                                      c.app, c.level, c.windowSeconds, at.queryNow)|)
      ensures tenants != null && c.projectId == [] && tenants.defaultId != [] ==>
                count == Some(|S.Logs(old(Tenants.Before(tenants.Stores(), at.files, tenants.defaultId, at.now)),
                                      c.app, c.level, c.windowSeconds, at.queryNow)|)
      ensures tenants != null && c.projectId == [] && tenants.defaultId == [] ==> count == None
      ensures tenants != null ==> forall p :: p in tenants.Stores() ==>
                tenants.Stores()[p] == Tenants.Before(old(tenants.Stores()), at.files, p, at.now)
    {
      var tsdb := single;
      if tenants != null {
        var found := tenants.GetTsdb(ProjectOf(c), at.others, at.files, at.now);
        tsdb := if found.Some? then found.value else null;
        assert ProjectOf(c) != [] ==> ProjectOf(c) in tenants.Stores();
      }
      if tsdb == null { return None; }
      var n := tsdb.GetCount(c.app, c.level, c.windowSeconds, at.queryNow);
      return Some(n);
    }

    /** evaluate_rule: unless the rule is cooling down, its store is asked, and it fires exactly if the
        count exceeds the threshold. */
    method EvaluateRule(rs: AlertRuleState, at: Reading) returns (ghost count: Option<int>)
      requires history == Recent(fired) && TenantsValid()
      modifies rs, this`history, this`fired, Managers()
      ensures history == Recent(fired) && TenantsValid()
      ensures old(rs.status) != COOLDOWN || old(rs.cooldownUntil) <= at.now ==> count == old(Answer(rs.rule, at))
      ensures Cooling(old(rs.Abs()), at.now) && tenants != null ==> tenants.tsdbs == old(tenants.tsdbs)
      ensures Fires(old(rs.Abs()), at.now, count) ==>
                && rs.Abs() == Fire(old(rs.Abs()), at.now)
                && fired == old(fired) + [FiringOf(old(rs.rule), at.now, count.value)]
      ensures !Fires(old(rs.Abs()), at.now, count) ==>
                rs.Abs() == Rest(old(rs.Abs()), at.now, count) && fired == old(fired)
      ensures var asked := old(rs.status) != COOLDOWN || old(rs.cooldownUntil) <= at.now;
              && (asked && count.Some? && count.value > rs.rule.threshold ==>
                    && rs.status == COOLDOWN && rs.lastFired == at.now && rs.fireCount == old(rs.fireCount) + 1
                    && rs.cooldownUntil == at.now + rs.rule.cooldownSeconds * 1_000_000_000
                    && |fired| == |old(fired)| + 1)
              && (!(asked && count.Some? && count.value > rs.rule.threshold) ==>
                    && rs.status == (if !asked then COOLDOWN
                                     else if old(rs.status) == FIRING && count.None? then FIRING else INACTIVE)
                    && rs.lastFired == old(rs.lastFired) && rs.fireCount == old(rs.fireCount)
                    && rs.cooldownUntil == old(rs.cooldownUntil) && fired == old(fired))
      ensures rs.rule == old(rs.rule)
    {
      hide Recent;
      count := None;
      if rs.status == COOLDOWN && at.now >= rs.cooldownUntil { rs.status := INACTIVE; }
      if rs.status == COOLDOWN { return; }
      var answer := Query(rs.rule, at);
      count := answer;
      if answer.None? { return; }
      if answer.value > rs.rule.threshold {
        FireAlert(rs, answer.value, at.now);
      } else if rs.status == FIRING {
        rs.status := INACTIVE;
      }
    }

    /** One rule's turn in the loop over the rules. */
    method EvaluateAt(i: nat, at: Reading) returns (ghost count: Option<int>)
      requires Valid() && i < |rules| && TenantsValid()
      modifies rules[i], this`history, this`fired, this`ops, Managers()
      ensures Valid() && TenantsValid() && ops == old(ops) + [Evaluation(i, at.now, count)]
      ensures !Cooling(old(rules[i].Abs()), at.now) ==> count == old(Answer(rules[i].rule, at))
    {
      hide Recent;
      ghost var before := Rules();
      count := EvaluateRule(rules[i], at);
      ops := ops + [Evaluation(i, at.now, count)];
      assert ops[..|ops| - 1] == old(ops);
      assert Rules() == before[i := rules[i].Abs()];
    }

    /** One iteration of check_loop, after its second of sleep. */
    method CheckTick(file: Option<seq<Config>>, readings: nat -> Reading) returns (ghost counts: seq<Option<int>>)
      requires Valid() && TenantsValid()
      modifies this, rules, Managers()
      ensures Valid() && TenantsValid()
      ensures old(ticks) + 1 < 10 ==>
                ticks == old(ticks) + 1 && ops == old(ops) && rules == old(rules) && reloadPending == old(reloadPending)
      ensures old(ticks) + 1 >= 10 ==>
                && ticks == 0 && !reloadPending && |counts| == |rules|
                && ops == old(ops) + (if old(reloadPending) then [Load(file)] else []) + Pass(readings, counts)
      ensures rules == old(rules) || fresh(rules)
    {
      hide Run, Values;
      counts := [];
      ticks := ticks + 1;
      if ticks < CHECK_INTERVAL { return; }
      ticks := 0;
      var pending := reloadPending;
      reloadPending := false;
      if pending { LoadRules(file); }
      counts := EvaluateAll(readings);
    }

    /** The loop over the rules. */
    method EvaluateAll(readings: nat -> Reading) returns (ghost counts: seq<Option<int>>)
      requires Valid() && TenantsValid()
      modifies rules, this`history, this`fired, this`ops, Managers()
      ensures Valid() && TenantsValid() && |counts| == |rules| && ops == old(ops) + Pass(readings, counts)
    {
      hide Run, Values;
      counts := [];
      for i := 0 to |rules|
        invariant Valid() && TenantsValid() && |counts| == i && ops == old(ops) + Pass(readings, counts)
      {
        ghost var count := EvaluateAt(i, readings(i));
        assert Pass(readings, counts + [count]) == Pass(readings, counts) + [Evaluation(i, readings(i).now, count)];
        counts := counts + [count];
      }
    }

    /** The ids in use, each with its last rule object. */
    method PreviousStates() returns (prev: map<Bytes, AlertRuleState>)
      ensures forall id :: id in prev <==> LastWith(Rules(), id).Some?
      ensures forall id :: id in prev ==> prev[id] in rules && prev[id].Abs() == LastWith(Rules(), id).value
    {
      prev := map[];
      for i := 0 to |rules|
        invariant forall id :: id in prev <==> LastWith(Rules()[..i], id).Some?
        invariant forall id :: id in prev ==> prev[id] in rules && prev[id].Abs() == LastWith(Rules()[..i], id).value
      {
        assert Rules()[..i + 1][..i] == Rules()[..i];
        assert Rules()[..i + 1][i] == rules[i].Abs();
        prev := prev[rules[i].rule.id := rules[i]];
      }
      assert Rules()[..|rules|] == Rules();
    }

    /** A new rule object, with the state its id had. */
    method NewRule(cfg: Config, prev: map<Bytes, AlertRuleState>) returns (rs: AlertRuleState)
      ensures fresh(rs)
      ensures rs.Abs() == if cfg.id in prev then prev[cfg.id].Abs().(config := cfg) else Rule(cfg, INACTIVE, 0, 0, 0)
    {
      rs := new AlertRuleState(cfg);
      if cfg.id in prev {
        var p := prev[cfg.id];
        rs.status, rs.lastFired, rs.cooldownUntil, rs.fireCount := p.status, p.lastFired, p.cooldownUntil, p.fireCount;
      }
    }

    /** The rules of a file, merged with the previous ones. */
    method BuildRules(items: seq<Config>, prev: map<Bytes, AlertRuleState>, ghost before: seq<Rule>)
      returns (newRules: seq<AlertRuleState>)
      requires forall id :: id in prev <==> LastWith(before, id).Some?
      requires forall id :: id in prev ==> prev[id].Abs() == LastWith(before, id).value
      ensures fresh(newRules) && Values(newRules) == Merge(before, items)
      ensures forall a, b :: 0 <= a < b < |newRules| ==> newRules[a] != newRules[b]
    {
      newRules := [];
      for i := 0 to |items|
        invariant fresh(newRules)
        invariant forall a, b :: 0 <= a < b < |newRules| ==> newRules[a] != newRules[b]
        invariant Values(newRules) == Merge(before, items[..i])
      {
        assert items[..i + 1][..i] == items[..i];
        var cfg := items[i];
        if cfg.id == [] || cfg.app == [] { continue; }
        ghost var values := Values(newRules);
        var rs := NewRule(cfg, prev);
        hide LastWith, Merge;
        assert rs.Abs() == Restore(before, cfg);
        assert Values(newRules) == values;
        newRules := newRules + [rs];
        assert Values(newRules) == values + [rs.Abs()];
      }
      assert items[..|items|] == items;
    }

    /** load_rules; there is no file if it cannot be opened or read as an array of rules. */
    method LoadRules(file: Option<seq<Config>>)
      requires Valid()
      modifies this`rules, this`ops
      ensures Valid() && ops == old(ops) + [Load(file)]
      ensures file.None? ==> rules == old(rules)
      ensures file.Some? ==> fresh(rules)
    {
      hide Run, Recent, Merge, LastWith;
      RunMore(ops, Load(file));
      ops := ops + [Load(file)];
      if file.None? { return; }
      var prev := PreviousStates();
      rules := BuildRules(file.value, prev, Rules());
    }
  }

  ghost function Values(states: seq<AlertRuleState>): seq<Rule>
    reads states
  {
    seq(|states|, i requires 0 <= i < |states| reads states => states[i].Abs())
  }
}
