/**
 The threshold alert engine: every rule is evaluated in turn, fires when its count exceeds its
 threshold, then cools down; reloading the rules file keeps the cooldown of the ids it keeps. Clock
 readings, query results and file contents are arguments. A rule that resolves to no store has no
 count.
 */
module AlertRules {
  import opened Prelude

  const SECOND: int := 1_000_000_000
  const MAX_HISTORY: nat := 10

  datatype Config = Config(id: Bytes, app: Bytes, level: Bytes, threshold: int, windowSeconds: int,
                           notifyUrl: Bytes, cooldownSeconds: int, projectId: Bytes)

  datatype Status = INACTIVE | FIRING | COOLDOWN

  datatype Rule = Rule(config: Config, status: Status, lastFired: int, cooldownUntil: int, fireCount: nat)

  datatype FiredAlert = FiredAlert(ruleId: Bytes, app: Bytes, level: Bytes, notifyUrl: Bytes, count: int,
                                   threshold: int, windowSeconds: int, firedAt: int)

  /** An alert, with the cooldown in force when it fired. */
  datatype Firing = Firing(alert: FiredAlert, cooldownSeconds: int) {
    ghost function End(): int { alert.firedAt + cooldownSeconds * SECOND }
  }

  /** The rules and everything fired so far. */
  datatype Engine = Engine(rules: seq<Rule>, fired: seq<Firing>)

  datatype Op =
    | Load(file: Option<seq<Config>>)
    | Evaluation(i: nat, now: int, count: Option<int>)

  // ----- one evaluation -----

  /** Whether an evaluation fires the rule. */
  predicate Fires(r: Rule, now: int, count: Option<int>) {
    (r.status == COOLDOWN ==> r.cooldownUntil <= now) && count.Some? && r.config.threshold < count.value
  }

  function AlertOf(c: Config, now: int, count: int): FiredAlert {
    FiredAlert(c.id, c.app, c.level, c.notifyUrl, count, c.threshold, c.windowSeconds, now)
  }

  function FiringOf(c: Config, now: int, count: int): Firing { Firing(AlertOf(c, now, count), c.cooldownSeconds) }

  function Fire(r: Rule, now: int): Rule {
    Rule(r.config, COOLDOWN, now, now + r.config.cooldownSeconds * SECOND, r.fireCount + 1)
  }

  /** A rule after an evaluation that does not fire it. */
  function Rest(r: Rule, now: int, count: Option<int>): Rule {
    if r.status == COOLDOWN && now < r.cooldownUntil then r
    else if r.status == COOLDOWN then r.(status := INACTIVE)
    else if r.status == FIRING && count.Some? then r.(status := INACTIVE)
    else r
  }

  function Evaluate(e: Engine, i: nat, now: int, count: Option<int>): Engine
    requires i < |e.rules|
  {
    var r := e.rules[i];
    if Fires(r, now, count) then
      Engine(e.rules[i := Fire(r, now)], e.fired + [FiringOf(r.config, now, count.value)])
    else Engine(e.rules[i := Rest(r, now, count)], e.fired)
  }

  // ----- reloading -----

  /** Entries without an id or an app are skipped. */
  predicate Usable(c: Config) { c.id != [] && c.app != [] }

  /** The last rule with an id. */
  function LastWith(rules: seq<Rule>, id: Bytes): Option<Rule> {
    if rules == [] then None
    else if rules[|rules| - 1].config.id == id then Some(rules[|rules| - 1])
    else LastWith(rules[..|rules| - 1], id)
  }

  /** A configured rule, with the state its id had before. */
  function Restore(rules: seq<Rule>, c: Config): Rule {
    match LastWith(rules, c.id)
    case None => Rule(c, INACTIVE, 0, 0, 0)
    case Some(r) => r.(config := c)
  }

  function Merge(rules: seq<Rule>, items: seq<Config>): seq<Rule> {
    if items == [] then []
    else
      var front := Merge(rules, items[..|items| - 1]);
      var c := items[|items| - 1];
      if Usable(c) then front + [Restore(rules, c)] else front
  }

  function Next(e: Engine, op: Op): Engine {
    match op
    case Load(file) => if file.None? then e else e.(rules := Merge(e.rules, file.value))
    case Evaluation(i, now, count) => if i < |e.rules| then Evaluate(e, i, now, count) else e
  }

  function Run(ops: seq<Op>): Engine {
    if ops == [] then Engine([], []) else Next(Run(ops[..|ops| - 1]), ops[|ops| - 1])
  }

  // ----- never firing between evaluations -----

  ghost predicate Settled(rules: seq<Rule>) {
    forall i :: 0 <= i < |rules| ==> rules[i].status != FIRING
  }

  lemma {:induction false} RestoreSettled(rules: seq<Rule>, id: Bytes)
    requires Settled(rules)
    ensures LastWith(rules, id).Some? ==> LastWith(rules, id).value.status != FIRING
    decreases |rules|
  {
    if rules != [] { RestoreSettled(rules[..|rules| - 1], id); }
  }

  lemma {:induction false} MergeSettled(rules: seq<Rule>, items: seq<Config>)
    requires Settled(rules)
    ensures Settled(Merge(rules, items))
    decreases |items|
  {
    if items != [] {
      MergeSettled(rules, items[..|items| - 1]);
      RestoreSettled(rules, items[|items| - 1].id);
    }
  }

  /** Between evaluations every rule is inactive or cooling down. */
  lemma {:induction false} NeverFiringBetween(ops: seq<Op>)
    ensures Settled(Run(ops).rules)
    decreases |ops|
  {
    if ops != [] {
      var op := ops[|ops| - 1];
      NeverFiringBetween(ops[..|ops| - 1]);
      if op.Load? && op.file.Some? { MergeSettled(Run(ops[..|ops| - 1]).rules, op.file.value); }
    }
  }

  // ----- the files a run loads -----

  /** The files that were loaded, in order. */
  ghost function Files(ops: seq<Op>): seq<seq<Config>> {
    if ops == [] then []
    else
      var front, op := Files(ops[..|ops| - 1]), ops[|ops| - 1];
      if op.Load? && op.file.Some? then front + [op.file.value] else front
  }

  /** How many rules a file gives an id. */
  ghost function Uses(items: seq<Config>, id: Bytes): nat {
    if items == [] then 0
    else Uses(items[..|items| - 1], id)
         + (if Usable(items[|items| - 1]) && items[|items| - 1].id == id then 1 else 0)
  }

  ghost predicate Lists(items: seq<Config>, c: Config) { c in items && Usable(c) }

  /** A file gives the id a rule that cools down. */
  ghost predicate Cools(items: seq<Config>, id: Bytes) {
    exists c :: Lists(items, c) && c.id == id && c.cooldownSeconds > 0
  }

  lemma {:induction false} ListedIsUsed(items: seq<Config>, c: Config)
    requires Lists(items, c)
    ensures Uses(items, c.id) > 0
    decreases |items|
  {
    var n := |items| - 1;
    if items[n] != c { ListedIsUsed(items[..n], c); }
  }

  ghost predicate At(e: Engine, i: nat, id: Bytes) { i < |e.rules| && e.rules[i].config.id == id }

  ghost predicate Unique(e: Engine, id: Bytes) {
    forall i: nat, j: nat :: At(e, i, id) && At(e, j, id) ==> i == j
  }

  ghost predicate Has(e: Engine, id: Bytes) { exists i: nat :: At(e, i, id) }

  ghost function FiringsOf(fired: seq<Firing>, id: Bytes): seq<Firing> {
    if fired == [] then []
    else
      var front := FiringsOf(fired[..|fired| - 1], id);
      if fired[|fired| - 1].alert.ruleId == id then front + [fired[|fired| - 1]] else front
  }

  lemma FiringsAppend(fired: seq<Firing>, f: Firing, id: Bytes)
    ensures FiringsOf(fired + [f], id) ==
            if f.alert.ruleId == id then FiringsOf(fired, id) + [f] else FiringsOf(fired, id)
  {
    assert (fired + [f])[..|fired|] == fired;
  }

  /** What an evaluation does to the firings of an id. */
  lemma EvaluatedFirings(e: Engine, i: nat, now: int, count: Option<int>, id: Bytes)
    requires i < |e.rules|
    ensures var r := e.rules[i];
            FiringsOf(Evaluate(e, i, now, count).fired, id) ==
            if Fires(r, now, count) && r.config.id == id
            then FiringsOf(e.fired, id) + [FiringOf(r.config, now, count.value)]
            else FiringsOf(e.fired, id)
  {
    var r := e.rules[i];
    if Fires(r, now, count) {
      FiringsAppend(e.fired, FiringOf(r.config, now, count.value), id);
    }
  }

  /** One more rule. */
  lemma AppendedRule(rules: seq<Rule>, r: Rule, id: Bytes)
    ensures var front, e := Engine(rules, []), Engine(rules + [r], []);
            && (Has(e, id) <==> Has(front, id) || r.config.id == id)
            && (Unique(e, id) <==> Unique(front, id) && !(Has(front, id) && r.config.id == id))
            && (forall i: nat :: At(e, i, id) ==> At(front, i, id) || (i == |rules| && r.config.id == id))
  {
    var front, e, m := Engine(rules, []), Engine(rules + [r], []), |rules|;
    assert forall i: nat :: i < m ==> (At(e, i, id) <==> At(front, i, id));
    if r.config.id == id { assert At(e, m, id); }
    if Has(front, id) { var i: nat :| At(front, i, id); assert At(e, i, id); }
    if !Unique(front, id) {
      var i: nat, j: nat :| At(front, i, id) && At(front, j, id) && i != j;
      assert At(e, i, id) && At(e, j, id);
    }
  }

  /** What a merged file holds for an id. */
  lemma {:induction false} MergeOf(rules: seq<Rule>, items: seq<Config>, id: Bytes)
    ensures var e := Engine(Merge(rules, items), []);
            && (Has(e, id) <==> Uses(items, id) > 0)
            && (Uses(items, id) <= 1 <==> Unique(e, id))
            && (forall i: nat :: At(e, i, id) ==>
                  Lists(items, e.rules[i].config) && e.rules[i] == Restore(rules, e.rules[i].config))
    decreases |items|
  {
    if items != [] {
      var n := |items| - 1;
      MergeOf(rules, items[..n], id);
      MergeStep(rules, items, id);
      AppendedRule(Merge(rules, items[..n]), Restore(rules, items[n]), id);
      hide Merge, Restore, Uses, Has, Unique;
    }
  }

  lemma MergeStep(rules: seq<Rule>, items: seq<Config>, id: Bytes)
    requires items != []
    ensures var front, c := items[..|items| - 1], items[|items| - 1];
            && Merge(rules, items)
               == (if Usable(c) then Merge(rules, front) + [Restore(rules, c)] else Merge(rules, front))
            && Uses(items, id) == Uses(front, id) + (if Usable(c) && c.id == id then 1 else 0)
            && Restore(rules, c).config == c
  {
  }

  /** Every usable entry of a file has its rule. */
  lemma {:induction false} MergeFinds(rules: seq<Rule>, items: seq<Config>, c: Config) returns (i: nat)
    requires Lists(items, c)
    ensures i < |Merge(rules, items)| && Merge(rules, items)[i].config == c
    decreases |items|
  {
    var n := |items| - 1;
    if items[n] == c { i := |Merge(rules, items)| - 1; }
    else { i := MergeFinds(rules, items[..n], c); }
  }

  ghost function Configs(rules: seq<Rule>): seq<Config> {
    seq(|rules|, i requires 0 <= i < |rules| => rules[i].config)
  }

  /** The entries with an id and an app. */
  ghost function Named(items: seq<Config>): seq<Config> {
    if items == [] then []
    else
      var front, c := Named(items[..|items| - 1]), items[|items| - 1];
      if c.id == [] || c.app == [] then front else front + [c]
  }

  /** A reload makes one rule for each entry with an id and an app, in the order of the file, and none
      for any other. */
  lemma {:induction false} MergeKeepsOrder(rules: seq<Rule>, items: seq<Config>)
    ensures Configs(Merge(rules, items)) == Named(items)
    decreases |items|
  {
    hide LastWith;
    if items != [] {
      MergeKeepsOrder(rules, items[..|items| - 1]);
      MergeStep(rules, items, []);
    }
  }

  lemma {:induction false} LastWithFound(rules: seq<Rule>, id: Bytes)
    ensures LastWith(rules, id).None? <==> !Has(Engine(rules, []), id)
    ensures LastWith(rules, id).Some? ==>
              exists i: nat :: At(Engine(rules, []), i, id) && rules[i] == LastWith(rules, id).value
    decreases |rules|
  {
    if rules != [] {
      var n := |rules| - 1;
      var front, all := Engine(rules[..n], []), Engine(rules, []);
      LastWithFound(rules[..n], id);
      if rules[n].config.id == id { assert At(all, n, id); }
      else {
        assert forall i: nat :: At(all, i, id) ==> At(front, i, id);
        if Has(front, id) {
          var i: nat :| At(front, i, id) && rules[..n][i] == LastWith(rules, id).value;
          assert At(all, i, id);
        }
      }
    }
  }

  /** The rules of an id after a reload: each has the state of a rule of the id from before, or is new
      because there was none. */
  lemma Reloaded(e: Engine, items: seq<Config>, id: Bytes, i: nat)
    requires At(Next(e, Load(Some(items))), i, id)
    ensures var r := Next(e, Load(Some(items))).rules[i];
            && Lists(items, r.config)
            && (if Has(e, id)
                then exists j: nat :: At(e, j, id) && r == e.rules[j].(config := r.config)
                else r == Rule(r.config, INACTIVE, 0, 0, 0))
  {
    MergeOf(e.rules, items, id);
    LastWithFound(e.rules, id);
    hide Merge, LastWith, Uses;
    var merged, before := Engine(Merge(e.rules, items), []), Engine(e.rules, []);
    assert At(merged, i, id);
    assert forall j: nat :: At(before, j, id) <==> At(e, j, id);
    if Has(before, id) {
      var j: nat :| At(before, j, id) && e.rules[j] == LastWith(e.rules, id).value;
      assert At(e, j, id);
    }
  }

  // ----- what every run keeps -----

  ghost predicate UsedBefore(files: seq<seq<Config>>, id: Bytes) {
    exists i :: 0 <= i < |files| && Uses(files[i], id) > 0
  }

  ghost predicate CooledBefore(files: seq<seq<Config>>, id: Bytes) {
    exists i :: 0 <= i < |files| && Cools(files[i], id)
  }

  /** The rules of an id are those of the last file, and its firings come from files that have it. */
  ghost predicate FromFiles(e: Engine, files: seq<seq<Config>>, id: Bytes) {
    && (Has(e, id) <==> files != [] && Uses(files[|files| - 1], id) > 0)
    && (files != [] ==> (Uses(files[|files| - 1], id) <= 1 <==> Unique(e, id)))
    && (forall i: nat :: At(e, i, id) ==> files != [] && Lists(files[|files| - 1], e.rules[i].config))
    && (FiringsOf(e.fired, id) != [] ==> UsedBefore(files, id))
    && (forall k :: 0 <= k < |FiringsOf(e.fired, id)| && FiringsOf(e.fired, id)[k].cooldownSeconds > 0 ==>
          CooledBefore(files, id))
  }

  lemma LoadFromFiles(e: Engine, files: seq<seq<Config>>, id: Bytes, items: seq<Config>)
    requires FromFiles(e, files, id)
    ensures FromFiles(Next(e, Load(Some(items))), files + [items], id)
  {
    MergeOf(e.rules, items, id);
    hide Merge, Uses, FiringsOf, Restore, Lists, Cools;
    var e' := Next(e, Load(Some(items)));
    var merged := Engine(e'.rules, []);
    assert forall i: nat :: At(e', i, id) <==> At(merged, i, id);
    assert Has(e', id) <==> Has(merged, id);
    assert Unique(e', id) <==> Unique(merged, id);
    StillBefore(files, items, id);
  }

  lemma StillBefore(files: seq<seq<Config>>, items: seq<Config>, id: Bytes)
    ensures UsedBefore(files, id) ==> UsedBefore(files + [items], id)
    ensures CooledBefore(files, id) ==> CooledBefore(files + [items], id)
  {
    hide Uses, Cools;
    var all := files + [items];
    assert forall i :: 0 <= i < |files| ==> all[i] == files[i];
  }

  /** An evaluation leaves every rule its place and its configuration. */
  lemma EvaluatedPlaces(e: Engine, i: nat, now: int, count: Option<int>, id: Bytes)
    requires i < |e.rules|
    ensures var e' := Evaluate(e, i, now, count);
            && (forall j: nat :: At(e', j, id) <==> At(e, j, id))
            && (forall j: nat :: At(e, j, id) ==> e'.rules[j].config == e.rules[j].config)
            && (Has(e', id) <==> Has(e, id))
            && (Unique(e', id) <==> Unique(e, id))
  {
    var e' := Evaluate(e, i, now, count);
    assert forall j: nat :: At(e', j, id) <==> At(e, j, id);
  }

  /** A rule of the id shows that the last file has it. */
  lemma RuleFromFiles(e: Engine, files: seq<seq<Config>>, id: Bytes, i: nat)
    requires FromFiles(e, files, id) && At(e, i, id)
    ensures UsedBefore(files, id) && (e.rules[i].config.cooldownSeconds > 0 ==> CooledBefore(files, id))
  {
    hide Uses, FiringsOf;
    var last := files[|files| - 1];
    ListedIsUsed(last, e.rules[i].config);
    if e.rules[i].config.cooldownSeconds > 0 { assert Cools(last, id); }
  }

  lemma EvaluationFromFiles(e: Engine, files: seq<seq<Config>>, id: Bytes, i: nat, now: int, count: Option<int>)
    requires FromFiles(e, files, id) && i < |e.rules|
    ensures FromFiles(Evaluate(e, i, now, count), files, id)
  {
    hide Uses, FiringsOf, Evaluate, UsedBefore, CooledBefore, Has, Unique, Lists, Fires;
    EvaluatedFirings(e, i, now, count, id);
    EvaluatedPlaces(e, i, now, count, id);
    if At(e, i, id) { RuleFromFiles(e, files, id, i); }
  }

  lemma {:induction false} RunFromFiles(ops: seq<Op>, id: Bytes)
    ensures FromFiles(Run(ops), Files(ops), id)
    decreases |ops|
  {
    if ops != [] {
      var before, op := ops[..|ops| - 1], ops[|ops| - 1];
      RunFromFiles(before, id);
      hide FromFiles, Evaluate;
      if op.Load? && op.file.Some? { LoadFromFiles(Run(before), Files(before), id, op.file.value); }
      if op.Evaluation? && op.i < |Run(before).rules| {
        EvaluationFromFiles(Run(before), Files(before), id, op.i, op.now, op.count);
      }
    }
  }

  /** The clock never ran backwards, and has not passed this reading. */
  ghost predicate Clocked(ops: seq<Op>, now: int)
    decreases |ops|
  {
    ops != [] ==>
      var op := ops[|ops| - 1];
      if op.Evaluation? then op.now <= now && Clocked(ops[..|ops| - 1], op.now)
      else Clocked(ops[..|ops| - 1], now)
  }

  // ----- a rule and the firings of its id -----

  /** File i has the id, a later one leaves it out, and a still later one has it again. */
  ghost predicate Returns(files: seq<seq<Config>>, id: Bytes, i: nat, j: nat, k: nat) {
    i < j < k < |files| && Uses(files[i], id) > 0 && Uses(files[j], id) == 0 && Uses(files[k], id) > 0
  }

  /** No file has the id twice, and none has it again after one that left it out. */
  ghost predicate Steady(files: seq<seq<Config>>, id: Bytes) {
    && (forall i :: 0 <= i < |files| ==> Uses(files[i], id) <= 1)
    && (forall i, j, k :: !Returns(files, id, i, j, k))
  }

  lemma SteadyFront(files: seq<seq<Config>>, items: seq<Config>, id: Bytes)
    requires Steady(files + [items], id)
    ensures Steady(files, id)
  {
    hide Uses;
    var all := files + [items];
    assert forall i :: 0 <= i < |files| ==> all[i] == files[i];
    assert forall i, j, k :: Returns(files, id, i, j, k) ==> Returns(all, id, i, j, k);
  }

  lemma SteadyGap(files: seq<seq<Config>>, items: seq<Config>, id: Bytes)
    requires Steady(files + [items], id) && UsedBefore(files, id) && Uses(files[|files| - 1], id) == 0
    ensures Uses(items, id) == 0
  {
    hide Uses, Steady, Returns;
    var n := |files|;
    var i :| 0 <= i < n && Uses(files[i], id) > 0;
    NoReturn(files + [items], id, i, n - 1, n);
  }

  lemma NoReturn(files: seq<seq<Config>>, id: Bytes, i: nat, j: nat, k: nat)
    requires Steady(files, id) && i < j < k < |files| && Uses(files[i], id) > 0 && Uses(files[j], id) == 0
    ensures Uses(files[k], id) == 0
  {
    assert !Returns(files, id, i, j, k);
  }

  /** What ties a rule to the firings of its id: their number, the last of them, and that each one's
      cooldown is over unless it is the one the rule is cooling down from. */
  ghost predicate Tied(r: Rule, firings: seq<Firing>, now: int) {
    && r.fireCount == |firings|
    && r.lastFired == (if firings == [] then 0 else firings[|firings| - 1].alert.firedAt)
    && (r.status == COOLDOWN ==> firings != [] && r.cooldownUntil == firings[|firings| - 1].End())
    && r.status != FIRING
    && (forall k :: 0 <= k < |firings| ==>
          firings[k].End() <= now || (k == |firings| - 1 && r.status == COOLDOWN))
  }

  ghost predicate AllTied(e: Engine, id: Bytes, now: int) {
    forall i: nat :: At(e, i, id) ==> Tied(e.rules[i], FiringsOf(e.fired, id), now)
  }

  lemma TiedLater(e: Engine, id: Bytes, now: int, later: int)
    requires AllTied(e, id, now) && now <= later
    ensures AllTied(e, id, later)
  {
    hide FiringsOf;
  }

  lemma TiedAfterEvaluation(r: Rule, firings: seq<Firing>, now: int, count: Option<int>)
    requires Tied(r, firings, now)
    ensures if Fires(r, now, count)
            then Tied(Fire(r, now), firings + [FiringOf(r.config, now, count.value)], now)
            else Tied(Rest(r, now, count), firings, now)
  {
    if r.status == COOLDOWN { assert firings[|firings| - 1].End() == r.cooldownUntil; }
  }

  lemma EvaluationKeepsTied(e: Engine, id: Bytes, i: nat, now: int, count: Option<int>)
    requires AllTied(e, id, now) && i < |e.rules| && (At(e, i, id) ==> Unique(e, id))
    ensures AllTied(Evaluate(e, i, now, count), id, now)
  {
    EvaluatedFirings(e, i, now, count, id);
    hide FiringsOf, Tied, Fires, Fire, Rest, FiringOf;
    if At(e, i, id) { TiedAfterEvaluation(e.rules[i], FiringsOf(e.fired, id), now, count); }
    assert forall j: nat :: At(Evaluate(e, i, now, count), j, id) ==> At(e, j, id) || j == i;
  }

  lemma LoadKeepsTied(e: Engine, files: seq<seq<Config>>, id: Bytes, items: seq<Config>, now: int)
    requires AllTied(e, id, now) && FromFiles(e, files, id) && Steady(files + [items], id)
    ensures AllTied(Next(e, Load(Some(items))), id, now)
  {
    hide FiringsOf, Uses, Lists, Merge, Steady;
    var e' := Next(e, Load(Some(items)));
    forall i: nat | At(e', i, id) ensures Tied(e'.rules[i], FiringsOf(e'.fired, id), now) {
      Reloaded(e, items, id, i);
      if Has(e, id) {
        var j: nat :| At(e, j, id) && e'.rules[i] == e.rules[j].(config := e'.rules[i].config);
        assert Tied(e.rules[j], FiringsOf(e.fired, id), now);
      } else {
        ListedIsUsed(items, e'.rules[i].config);
        if FiringsOf(e.fired, id) != [] { SteadyGap(files, items, id); }
        assert FiringsOf(e.fired, id) == [];
      }
    }
  }

  /** After any run that loads steady files: every rule of the id is tied to the id's firings. */
  lemma {:induction false} RunTied(ops: seq<Op>, id: Bytes, now: int)
    requires Steady(Files(ops), id) && Clocked(ops, now)
    ensures AllTied(Run(ops), id, now)
    decreases |ops|
  {
    if ops != [] {
      var before, op := ops[..|ops| - 1], ops[|ops| - 1];
      var e := Run(before);
      RunFromFiles(before, id);
      if op.Load? && op.file.Some? { SteadyFront(Files(before), op.file.value, id); }
      hide AllTied, Steady, Evaluate;
      if op.Load? {
        RunTied(before, id, now);
        if op.file.Some? { LoadKeepsTied(e, Files(before), id, op.file.value, now); }
      } else {
        RunTied(before, id, op.now);
        if op.i < |e.rules| {
          SteadyIsUnique(e, Files(before), id, op.i);
          EvaluationKeepsTied(e, id, op.i, op.now, op.count);
        }
        TiedLater(Run(ops), id, op.now, now);
      }
    }
  }

  lemma SteadyIsUnique(e: Engine, files: seq<seq<Config>>, id: Bytes, i: nat)
    requires FromFiles(e, files, id) && Steady(files, id)
    ensures At(e, i, id) ==> Unique(e, id)
  {
    hide Uses, FiringsOf, Lists;
  }

  lemma TiedAt(e: Engine, i: nat, id: Bytes, now: int)
    requires AllTied(e, id, now) && i < |e.rules| && e.rules[i].config.id == id
    ensures Tied(e.rules[i], FiringsOf(e.fired, id), now)
  {
    assert At(e, i, id);
  }

  lemma FiresOfTied(r: Rule, firings: seq<Firing>, now: int, count: Option<int>)
    requires Tied(r, firings, now)
    ensures Fires(r, now, count) <==>
            && count.Some? && r.config.threshold < count.value
            && forall k :: 0 <= k < |firings| ==> firings[k].End() <= now
  {
    if r.status == COOLDOWN { assert firings[|firings| - 1].End() == r.cooldownUntil; }
  }

  /** After any run, an evaluation fires a rule exactly when its count exceeds its threshold and the
      cooldown of every earlier firing of its id is over. */
  lemma FiresIff(ops: seq<Op>, i: nat, now: int, count: Option<int>)
    requires Clocked(ops, now) && i < |Run(ops).rules| && Steady(Files(ops), Run(ops).rules[i].config.id)
    ensures var r, earlier := Run(ops).rules[i], FiringsOf(Run(ops).fired, Run(ops).rules[i].config.id);
            Fires(r, now, count) <==>
            && count.Some? && r.config.threshold < count.value
            && forall k :: 0 <= k < |earlier| ==> earlier[k].End() <= now
  {
    hide *;
    var r := Run(ops).rules[i];
    RunTied(ops, r.config.id, now);
    TiedAt(Run(ops), i, r.config.id, now);
    FiresOfTied(r, FiringsOf(Run(ops).fired, r.config.id), now, count);
  }

  /** fire_count and last_fired_ns are the number and the time of the id's firings, over every
      reload. */
  lemma FireCountCounts(ops: seq<Op>, i: nat, now: int)
    requires Clocked(ops, now) && i < |Run(ops).rules| && Steady(Files(ops), Run(ops).rules[i].config.id)
    ensures var r, firings := Run(ops).rules[i], FiringsOf(Run(ops).fired, Run(ops).rules[i].config.id);
            && r.fireCount == |firings|
            && r.lastFired == (if firings == [] then 0 else firings[|firings| - 1].alert.firedAt)
  {
    hide Run, Files, FiringsOf, Steady, Clocked, AllTied;
    RunTied(ops, Run(ops).rules[i].config.id, now);
    TiedAt(Run(ops), i, Run(ops).rules[i].config.id, now);
  }

  // ----- spacing, and exactly when it holds -----

  /** Every later firing comes at or after the end of the cooldown of every earlier one. */
  ghost predicate Spaced(firings: seq<Firing>) {
    forall a, b :: 0 <= a < b < |firings| ==> firings[a].End() <= firings[b].alert.firedAt
  }

  /** File i gives the id a rule that cools down, a later one leaves it out, and a still later one has
      it again. */
  ghost predicate Forgets(files: seq<seq<Config>>, id: Bytes, i: nat, j: nat, k: nat) {
    i < j < k < |files| && Cools(files[i], id) && Uses(files[j], id) == 0 && Uses(files[k], id) > 0
  }

  /** A file that gives the id a rule that cools down has the id only once, and no later file has the
      id again after one that left it out. */
  ghost predicate Safe(files: seq<seq<Config>>, id: Bytes) {
    && (forall i :: 0 <= i < |files| && Cools(files[i], id) ==> Uses(files[i], id) == 1)
    && (forall i, j, k :: !Forgets(files, id, i, j, k))
  }

  lemma SafeFront(files: seq<seq<Config>>, items: seq<Config>, id: Bytes)
    requires Safe(files + [items], id)
    ensures Safe(files, id)
  {
    hide Uses, Cools;
    var all := files + [items];
    assert forall i :: 0 <= i < |files| ==> all[i] == files[i];
    assert forall i, j, k :: Forgets(files, id, i, j, k) ==> Forgets(all, id, i, j, k);
  }

  lemma SafeGap(files: seq<seq<Config>>, items: seq<Config>, id: Bytes)
    requires Safe(files + [items], id) && CooledBefore(files, id) && Uses(files[|files| - 1], id) == 0
    ensures Uses(items, id) == 0
  {
    hide Uses, Cools, Safe, Forgets;
    var n := |files|;
    var i :| 0 <= i < n && Cools(files[i], id);
    CoolsIsUsed(files[i], id);
    NothingForgotten(files + [items], id, i, n - 1, n);
  }

  lemma NothingForgotten(files: seq<seq<Config>>, id: Bytes, i: nat, j: nat, k: nat)
    requires Safe(files, id) && i < j < k < |files| && Cools(files[i], id) && Uses(files[j], id) == 0
    ensures Uses(files[k], id) == 0
  {
    assert !Forgets(files, id, i, j, k);
  }

  lemma CoolsIsUsed(items: seq<Config>, id: Bytes)
    requires Cools(items, id)
    ensures Uses(items, id) > 0
  {
    var c :| Lists(items, c) && c.id == id && c.cooldownSeconds > 0;
    ListedIsUsed(items, c);
  }

  /** Each firing's cooldown is over, or the rule is cooling down at least until then. */
  ghost predicate Covers(r: Rule, firings: seq<Firing>, now: int) {
    forall k :: 0 <= k < |firings| ==>
      firings[k].End() <= now || (r.status == COOLDOWN && firings[k].End() <= r.cooldownUntil)
  }

  ghost predicate SpacedSoFar(e: Engine, id: Bytes, now: int) {
    && Spaced(FiringsOf(e.fired, id))
    && (forall k :: 0 <= k < |FiringsOf(e.fired, id)| ==> FiringsOf(e.fired, id)[k].alert.firedAt <= now)
    && (forall i: nat :: At(e, i, id) ==> Covers(e.rules[i], FiringsOf(e.fired, id), now))
  }

  lemma SpacedLater(e: Engine, id: Bytes, now: int, later: int)
    requires SpacedSoFar(e, id, now) && now <= later
    ensures SpacedSoFar(e, id, later)
  {
    hide FiringsOf, Spaced;
  }

  /** A rule that fires has no earlier cooldown running; one that does not still covers them. */
  lemma CoversAfterEvaluation(r: Rule, firings: seq<Firing>, now: int, count: Option<int>)
    requires Covers(r, firings, now)
    ensures if Fires(r, now, count)
            then
              && (forall k :: 0 <= k < |firings| ==> firings[k].End() <= now)
              && Covers(Fire(r, now), firings + [FiringOf(r.config, now, count.value)], now)
            else Covers(Rest(r, now, count), firings, now)
  {
  }

  lemma CoversOneMore(r: Rule, firings: seq<Firing>, f: Firing, now: int)
    requires Covers(r, firings, now) && f.End() <= now
    ensures Covers(r, firings + [f], now)
  {
  }

  lemma SpacedOneMore(firings: seq<Firing>, f: Firing)
    requires Spaced(firings) && forall k :: 0 <= k < |firings| ==> firings[k].End() <= f.alert.firedAt
    ensures Spaced(firings + [f])
  {
  }

  lemma FiringKeepsSpacing(e: Engine, id: Bytes, i: nat, now: int, count: Option<int>)
    requires SpacedSoFar(e, id, now) && At(e, i, id) && Fires(e.rules[i], now, count)
    requires e.rules[i].config.cooldownSeconds > 0 ==> Unique(e, id)
    ensures SpacedSoFar(Evaluate(e, i, now, count), id, now)
  {
    var r, firings := e.rules[i], FiringsOf(e.fired, id);
    var f := FiringOf(r.config, now, count.value);
    EvaluatedFirings(e, i, now, count, id);
    hide FiringsOf;
    CoversAfterEvaluation(r, firings, now, count);
    SpacedOneMore(firings, f);
    var e' := Evaluate(e, i, now, count);
    hide Spaced, Covers, Fires;
    forall j: nat | At(e', j, id) ensures Covers(e'.rules[j], firings + [f], now) {
      if j != i {
        assert At(e, j, id);
        CoversOneMore(e.rules[j], firings, f, now);
      }
    }
  }

  lemma EvaluationKeepsSpacing(e: Engine, id: Bytes, i: nat, now: int, count: Option<int>)
    requires SpacedSoFar(e, id, now) && i < |e.rules|
    requires At(e, i, id) && e.rules[i].config.cooldownSeconds > 0 ==> Unique(e, id)
    ensures SpacedSoFar(Evaluate(e, i, now, count), id, now)
  {
    if At(e, i, id) && Fires(e.rules[i], now, count) { FiringKeepsSpacing(e, id, i, now, count); }
    else {
      EvaluatedFirings(e, i, now, count, id);
      var e' := Evaluate(e, i, now, count);
      if At(e, i, id) { CoversAfterEvaluation(e.rules[i], FiringsOf(e.fired, id), now, count); }
      hide FiringsOf, Spaced, Covers;
      assert forall j: nat :: At(e', j, id) ==> At(e, j, id) && (j == i || e'.rules[j] == e.rules[j]);
    }
  }

  lemma LoadKeepsSpacing(e: Engine, files: seq<seq<Config>>, id: Bytes, items: seq<Config>, now: int)
    requires SpacedSoFar(e, id, now) && FromFiles(e, files, id) && Safe(files + [items], id)
    ensures SpacedSoFar(Next(e, Load(Some(items))), id, now)
  {
    hide FiringsOf, Uses, Lists, Merge, Safe, Spaced;
    var e', firings := Next(e, Load(Some(items))), FiringsOf(e.fired, id);
    forall i: nat | At(e', i, id) ensures Covers(e'.rules[i], firings, now) {
      Reloaded(e, items, id, i);
      if Has(e, id) {
        var j: nat :| At(e, j, id) && e'.rules[i] == e.rules[j].(config := e'.rules[i].config);
        assert Covers(e.rules[j], firings, now);
      } else {
        ListedIsUsed(items, e'.rules[i].config);
        if CooledBefore(files, id) { SafeGap(files, items, id); }
        assert forall k :: 0 <= k < |firings| ==> firings[k].cooldownSeconds <= 0 && firings[k].alert.firedAt <= now;
      }
    }
  }

  lemma SafeIsUnique(e: Engine, files: seq<seq<Config>>, id: Bytes, i: nat)
    requires FromFiles(e, files, id) && Safe(files, id)
    ensures At(e, i, id) && e.rules[i].config.cooldownSeconds > 0 ==> Unique(e, id)
  {
    hide Uses, FiringsOf, Lists;
    if At(e, i, id) && e.rules[i].config.cooldownSeconds > 0 { assert Cools(files[|files| - 1], id); }
  }

  lemma {:induction false} SafeRunsSpaced(ops: seq<Op>, id: Bytes, now: int)
    requires Safe(Files(ops), id) && Clocked(ops, now)
    ensures SpacedSoFar(Run(ops), id, now)
    decreases |ops|
  {
    if ops != [] {
      var before, op := ops[..|ops| - 1], ops[|ops| - 1];
      var e := Run(before);
      RunFromFiles(before, id);
      if op.Load? && op.file.Some? { SafeFront(Files(before), op.file.value, id); }
      hide SpacedSoFar, Safe, Evaluate;
      if op.Load? {
        SafeRunsSpaced(before, id, now);
        if op.file.Some? { LoadKeepsSpacing(e, Files(before), id, op.file.value, now); }
      } else {
        SafeRunsSpaced(before, id, op.now);
        if op.i < |e.rules| {
          SafeIsUnique(e, Files(before), id, op.i);
          EvaluationKeepsSpacing(e, id, op.i, op.now, op.count);
        }
        SpacedLater(Run(ops), id, op.now, now);
      }
    }
  }

  /** Firings of an id are spaced by the cooldown in force at the earlier one, whatever is evaluated
      and whenever the files are loaded, if the loaded files are safe. */
  lemma FiringsSpaced(ops: seq<Op>, id: Bytes, now: int)
    requires Safe(Files(ops), id) && Clocked(ops, now)
    ensures Spaced(FiringsOf(Run(ops).fired, id))
    ensures var firings := FiringsOf(Run(ops).fired, id);
            forall a, b :: 0 <= a < b < |firings| ==>
              firings[b].alert.firedAt - firings[a].alert.firedAt >= firings[a].cooldownSeconds * 1_000_000_000
  {
    SafeRunsSpaced(ops, id, now);
    hide Run, FiringsOf, Safe, Clocked, Files;
    var firings := FiringsOf(Run(ops).fired, id);
    forall a, b | 0 <= a < b < |firings|
      ensures firings[b].alert.firedAt - firings[a].alert.firedAt >= firings[a].cooldownSeconds * 1_000_000_000
    {
      assert firings[a].End() <= firings[b].alert.firedAt;
    }
  }

  // ----- unsafe files have runs that are not spaced -----

  ghost function Loads(files: seq<seq<Config>>): seq<Op> {
    seq(|files|, i requires 0 <= i < |files| => Load(Some(files[i])))
  }

  lemma RunMore(ops: seq<Op>, op: Op)
    ensures Run(ops + [op]) == Next(Run(ops), op)
    ensures Files(ops + [op]) == if op.Load? && op.file.Some? then Files(ops) + [op.file.value] else Files(ops)
  {
    assert (ops + [op])[..|ops|] == ops;
  }

  /** Every reading was 0. */
  ghost predicate AtZero(ops: seq<Op>) { forall k :: 0 <= k < |ops| && ops[k].Evaluation? ==> ops[k].now == 0 }

  lemma {:induction false} ZeroIsClocked(ops: seq<Op>)
    requires AtZero(ops)
    ensures Clocked(ops, 0)
    decreases |ops|
  {
    if ops != [] {
      assert forall k :: 0 <= k < |ops| - 1 ==> ops[..|ops| - 1][k] == ops[k];
      ZeroIsClocked(ops[..|ops| - 1]);
    }
  }

  /** Every rule of the id is inactive. */
  ghost predicate Idle(e: Engine, id: Bytes) {
    forall i: nat :: At(e, i, id) ==> e.rules[i].status == INACTIVE
  }

  lemma LoadKeepsIdle(e: Engine, items: seq<Config>, id: Bytes)
    requires Idle(e, id)
    ensures Idle(Next(e, Load(Some(items))), id)
  {
    hide Merge, Lists;
    var e' := Next(e, Load(Some(items)));
    forall i: nat | At(e', i, id) ensures e'.rules[i].status == INACTIVE { Reloaded(e, items, id, i); }
  }

  /** Loading some more files: nothing fires, and an idle id stays idle. */
  lemma {:induction false} LoadMore(ops: seq<Op>, files: seq<seq<Config>>, id: Bytes)
    requires AtZero(ops)
    ensures var all := ops + Loads(files);
            && AtZero(all) && Files(all) == Files(ops) + files
            && Run(all).fired == Run(ops).fired
            && (Idle(Run(ops), id) ==> Idle(Run(all), id))
    decreases |files|
  {
    if files == [] { assert ops + Loads(files) == ops; }
    else {
      var n := |files| - 1;
      LoadMore(ops, files[..n], id);
      var most := ops + Loads(files[..n]);
      assert ops + Loads(files) == most + [Load(Some(files[n]))];
      assert Files(ops) + files[..n] + [files[n]] == Files(ops) + files;
      hide Run, Files, Idle;
      RunMore(most, Load(Some(files[n])));
      if Idle(Run(most), id) { LoadKeepsIdle(Run(most), files[n], id); }
    }
  }

  /** The rules after the last of some files: an inactive one for any entry of an idle id. */
  lemma RuleFor(ops: seq<Op>, c: Config) returns (i: nat)
    requires Files(ops) != [] && Lists(Files(ops)[|Files(ops)| - 1], c)
    requires ops[|ops| - 1].Load? && ops[|ops| - 1].file.Some?
    ensures i < |Run(ops).rules| && Run(ops).rules[i].config == c
  {
    var before := ops[..|ops| - 1];
    i := MergeFinds(Run(before).rules, ops[|ops| - 1].file.value, c);
  }

  /** Evaluating an inactive rule with a count over its threshold, at reading 0. */
  lemma FireAt(ops: seq<Op>, i: nat) returns (all: seq<Op>, f: Firing)
    requires AtZero(ops) && i < |Run(ops).rules| && Run(ops).rules[i].status == INACTIVE
    ensures AtZero(all) && Files(all) == Files(ops)
    ensures var c := Run(ops).rules[i].config;
            && Run(all).fired == Run(ops).fired + [f] && f.alert.ruleId == c.id
            && f.alert.firedAt == 0 && f.cooldownSeconds == c.cooldownSeconds
            && |Run(all).rules| == |Run(ops).rules|
            && forall j :: 0 <= j < |Run(ops).rules| && j != i ==> Run(all).rules[j] == Run(ops).rules[j]
  {
    var op := Evaluation(i, 0, Some(Run(ops).rules[i].config.threshold + 1));
    all := ops + [op];
    RunMore(ops, op);
    var c := Run(ops).rules[i].config;
    f := FiringOf(c, 0, c.threshold + 1);
    hide Run, Files;
  }

  lemma TwoNotSpaced(f: Firing, g: Firing, id: Bytes)
    requires f.alert.ruleId == id && g.alert.ruleId == id && f.End() > g.alert.firedAt
    ensures !Spaced(FiringsOf([f] + [g], id))
  {
    FiringsAppend([], f, id);
    FiringsAppend([f], g, id);
    assert [] + [f] == [f];
    var firings := FiringsOf([f] + [g], id);
    assert firings == [f, g];
    hide FiringsOf;
    assert firings[0].End() > firings[1].alert.firedAt;
  }

  ghost predicate Unspaced(ops: seq<Op>, files: seq<seq<Config>>, id: Bytes) {
    AtZero(ops) && Files(ops) == files && !Spaced(FiringsOf(Run(ops).fired, id))
  }

  /** Files loaded one after the other, up to and including one of them: nothing has fired, no rule of
      the id is cooling down, and an entry of that file has its rule. */
  lemma LoadUpTo(files: seq<seq<Config>>, i: nat, c: Config) returns (ops: seq<Op>, a: nat)
    requires i < |files| && Lists(files[i], c)
    ensures AtZero(ops) && Files(ops) == files[..i + 1] && Run(ops).fired == [] && Idle(Run(ops), c.id)
    ensures a < |Run(ops).rules| && Run(ops).rules[a].config == c
  {
    var front := files[..i + 1];
    LoadMore([], front, c.id);
    assert [] + Loads(front) == Loads(front) && [] + front == front;
    ops := Loads(front);
    a := RuleFor(ops, c);
  }

  /** A file that has the id twice, once with a cooldown, lets both rules fire at once. */
  lemma DoubledIdUnspaced(files: seq<seq<Config>>, id: Bytes, i: nat) returns (ops: seq<Op>)
    requires i < |files| && Cools(files[i], id) && Uses(files[i], id) > 1
    ensures Unspaced(ops, files, id)
  {
    var c :| Lists(files[i], c) && c.id == id && c.cooldownSeconds > 0;
    var first, a := LoadUpTo(files, i, c);
    hide Files, Run, FiringsOf, Uses, Spaced;
    var b := AnotherRule(first, id, a);
    var once, f := FireAt(first, a);
    var twice, g := FireAt(once, b);
    assert [] + [f] == [f];
    TwoNotSpaced(f, g, id);
    LoadMore(twice, files[i + 1..], id);
    assert files[..i + 1] + files[i + 1..] == files;
    ops := twice + Loads(files[i + 1..]);
  }

  lemma AnotherRule(ops: seq<Op>, id: Bytes, a: nat) returns (b: nat)
    requires Files(ops) != [] && Uses(Files(ops)[|Files(ops)| - 1], id) > 1 && At(Run(ops), a, id) && Idle(Run(ops), id)
    ensures b != a && At(Run(ops), b, id) && Run(ops).rules[b].status == INACTIVE
  {
    RunFromFiles(ops, id);
    hide Run, Files, Uses, FiringsOf;
    var i: nat, j: nat :| At(Run(ops), i, id) && At(Run(ops), j, id) && i != j;
    b := if i != a then i else j;
  }

  /** A rule that cools down fires, and then a file leaves its id out. */
  lemma FireAndDrop(files: seq<seq<Config>>, id: Bytes, i: nat, j: nat) returns (ops: seq<Op>, f: Firing)
    requires i < j < |files| && Cools(files[i], id) && Uses(files[j], id) == 0
    ensures AtZero(ops) && Files(ops) == files[..j + 1] && !Has(Run(ops), id)
    ensures Run(ops).fired == [f] && f.alert.ruleId == id && f.End() > 0
  {
    hide Files, Run, FiringsOf, Uses;
    var c :| Lists(files[i], c) && c.id == id && c.cooldownSeconds > 0;
    var first, a := LoadUpTo(files, i, c);
    var once;
    once, f := FireAt(first, a);
    LoadMore(once, files[i + 1..j + 1], id);
    ops := once + Loads(files[i + 1..j + 1]);
    assert files[..i + 1] + files[i + 1..j + 1] == files[..j + 1];
    assert [] + [f] == [f];
    RunFromFiles(ops, id);
  }

  /** A file that leaves the id out makes a later one that has it forget a cooldown. */
  lemma DroppedIdUnspaced(files: seq<seq<Config>>, id: Bytes, i: nat, j: nat, k: nat) returns (ops: seq<Op>)
    requires Forgets(files, id, i, j, k)
    ensures Unspaced(ops, files, id)
  {
    hide Files, Run, FiringsOf, Uses, Spaced, Cools;
    var without, f := FireAndDrop(files, id, i, j);
    var again, b := LoadAgain(without, files, id, j, k);
    var twice, g := FireAt(again, b);
    TwoNotSpaced(f, g, id);
    LoadMore(twice, files[k + 1..], id);
    assert files[..k + 1] + files[k + 1..] == files;
    ops := twice + Loads(files[k + 1..]);
  }

  /** The rule that a later file gives an id that was left out is inactive. */
  lemma LoadAgain(without: seq<Op>, files: seq<seq<Config>>, id: Bytes, j: nat, k: nat) returns (ops: seq<Op>, b: nat)
    requires j < k < |files| && AtZero(without) && Files(without) == files[..j + 1] && !Has(Run(without), id)
    requires Uses(files[k], id) > 0
    ensures AtZero(ops) && Files(ops) == files[..k + 1] && Run(ops).fired == Run(without).fired
    ensures At(Run(ops), b, id) && Run(ops).rules[b].status == INACTIVE
  {
    hide Files, Run, FiringsOf, Uses;
    assert Idle(Run(without), id);
    LoadMore(without, files[j + 1..k + 1], id);
    ops := without + Loads(files[j + 1..k + 1]);
    assert files[..j + 1] + files[j + 1..k + 1] == files[..k + 1];
    RunFromFiles(ops, id);
    b :| At(Run(ops), b, id);
  }

  ghost predicate AlwaysSpaced(files: seq<seq<Config>>, id: Bytes) {
    forall ops, now :: Clocked(ops, now) && Files(ops) == files ==> Spaced(FiringsOf(Run(ops).fired, id))
  }

  /** Spacing, exactly: every run with a clock that never goes back and that loads these files spaces
      the firings of an id by their cooldowns if and only if the files are safe for it. */
  lemma SpacedIffSafe(files: seq<seq<Config>>, id: Bytes)
    ensures AlwaysSpaced(files, id) <==> Safe(files, id)
  {
    if Safe(files, id) {
      forall ops, now | Clocked(ops, now) && Files(ops) == files ensures Spaced(FiringsOf(Run(ops).fired, id)) {
        FiringsSpaced(ops, id, now);
      }
    } else {
      var ops := UnsafeRun(files, id);
      ZeroIsClocked(ops);
    }
  }

  lemma UnsafeRun(files: seq<seq<Config>>, id: Bytes) returns (ops: seq<Op>)
    requires !Safe(files, id)
    ensures Unspaced(ops, files, id)
  {
    if i :| 0 <= i < |files| && Cools(files[i], id) && Uses(files[i], id) != 1 {
      CoolsIsUsed(files[i], id);
      ops := DoubledIdUnspaced(files, id, i);
    } else {
      var i: nat, j: nat, k: nat :| Forgets(files, id, i, j, k);
      ops := DroppedIdUnspaced(files, id, i, j, k);
    }
  }
}
