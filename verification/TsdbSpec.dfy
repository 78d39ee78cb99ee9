/**
 The time-series store as values: a sorted vector of entries per application and the newest
 timestamp ever seen for it. Evicting old entries is invisible to windowed queries.
 */
module TsdbSpec {
  import opened Prelude

  datatype Entry = Entry(app: Bytes, level: Bytes, message: Bytes, ts: int)

  type Log = seq<Entry>

  datatype Store = Store(data: map<Bytes, Log>, lastSeen: map<Bytes, int>)

  const SECOND: int := 1_000_000_000
  const DAY: int := 86400
  const EVICTION_AGE: int := DAY * SECOND

  const EMPTY: Store := Store(map[], map[])

  function Vec(s: Store, app: Bytes): Log {
    if app in s.data then s.data[app] else []
  }

  function Max(a: int, b: int): int { if a < b then b else a }

  predicate Sorted(v: Log) {
    forall i, j :: 0 <= i < j < |v| ==> v[i].ts <= v[j].ts
  }

  /** The number of leading entries older than t: where lower_bound points in a sorted vector. */
  function LowerBound(v: Log, t: int): (k: nat)
    ensures k <= |v|
  {
    if v == [] || v[0].ts >= t then 0 else 1 + LowerBound(v[1..], t)
  }

  /** Where an entry goes: at the end unless it is older than the last entry, otherwise before the
      first entry that is not older than it. */
  function Place(v: Log, t: int): (j: nat)
    ensures j <= |v|
  {
    if v == [] || v[|v| - 1].ts <= t then |v| else LowerBound(v, t)
  }

  function InsertAt(v: Log, j: nat, e: Entry): Log
    requires j <= |v|
  {
    v[..j] + [e] + v[j..]
  }

  function InsertSorted(v: Log, e: Entry): Log {
    InsertAt(v, Place(v, e.ts), e)
  }

  /** The entries not older than the cutoff, in order. */
  function KeepFrom(v: Log, cutoff: int): Log {
    if v == [] then []
    else
      KeepFrom(v[..|v| - 1], cutoff) + if v[|v| - 1].ts >= cutoff then [v[|v| - 1]] else []
  }

  predicate Wanted(e: Entry, cutoff: int, level: Bytes) {
    e.ts >= cutoff && (level == [] || e.level == level)
  }

  /** The entries of a window; an empty level selects all levels. */
  function Select(v: Log, cutoff: int, level: Bytes): Log {
    if v == [] then []
    else
      var e := v[|v| - 1];
      Select(v[..|v| - 1], cutoff, level) + if Wanted(e, cutoff, level) then [e] else []
  }

  function Logs(s: Store, app: Bytes, level: Bytes, window: int, now: int): Log {
    Select(Vec(s, app), now - window * SECOND, level)
  }

  function LastSeen(s: Store, app: Bytes): int {
    if app in s.lastSeen then s.lastSeen[app] else 0
  }

  // ----- operations -----

  function Insert(s: Store, e: Entry): Store {
    Store(s.data[e.app := InsertSorted(Vec(s, e.app), e)],
          s.lastSeen[e.app := Max(LastSeen(s, e.app), e.ts)])
  }

  /** The entry is in its application's vector, somewhere; nothing else differs but the last-seen time.
      This is all that is promised of an insertion into a vector that is out of order. */
  ghost predicate InsertedSomewhere(before: Store, after: Store, e: Entry) {
    && (exists j :: 0 <= j <= |Vec(before, e.app)|
          && after.data == before.data[e.app := InsertAt(Vec(before, e.app), j, e)])
    && after.lastSeen == before.lastSeen[e.app := Max(LastSeen(before, e.app), e.ts)]
  }

  /** Drops every entry older than 24 hours and every application left without entries. */
  function Evict(s: Store, clock: int): Store {
    var cutoff := clock - EVICTION_AGE;
    s.(data := map app | app in s.data && KeepFrom(s.data[app], cutoff) != []
                 :: KeepFrom(s.data[app], cutoff))
  }

  datatype Op = Insertion(entry: Entry) | Eviction(clock: int)

  function Apply(s: Store, op: Op): Store {
    match op
    case Insertion(e) => Insert(s, e)
    case Eviction(clock) => Evict(s, clock)
  }

  /** A run from the store that was loaded, or from the empty one. */
  function Run(start: Store, ops: seq<Op>): Store {
    if ops == [] then start else Apply(Run(start, ops[..|ops| - 1]), ops[|ops| - 1])
  }

  /** The same run of a store that never evicts. */
  function RunKeepingAll(start: Store, ops: seq<Op>): Store {
    if ops == [] then start
    else
      var s := RunKeepingAll(start, ops[..|ops| - 1]);
      if ops[|ops| - 1].Insertion? then Insert(s, ops[|ops| - 1].entry) else s
  }

  // ----- sorted insertion and the threshold filter -----

  lemma {:induction false} LowerBoundSplits(v: Log, t: int)
    requires Sorted(v)
    ensures var k := LowerBound(v, t);
            && (forall i :: 0 <= i < k ==> v[i].ts < t)
            && (forall i :: k <= i < |v| ==> v[i].ts >= t)
  {
    if v != [] && v[0].ts < t {
      LowerBoundSplits(v[1..], t);
      var k := LowerBound(v[1..], t);
      assert forall i :: 0 < i <= k ==> v[i] == v[1..][i - 1];
      assert forall i :: k < i < |v| ==> v[i] == v[1..][i - 1];
    }
  }

  lemma PlaceSplits(v: Log, t: int)
    requires Sorted(v)
    ensures var j := Place(v, t);
            && (forall i :: 0 <= i < j ==> v[i].ts <= t)
            && (forall i :: j <= i < |v| ==> v[i].ts >= t)
  {
    LowerBoundSplits(v, t);
  }

  lemma PlaceAtMost(v: Log, t: int, k: nat)
    requires Sorted(v) && k <= |v|
    requires k < |v| ==> v[k].ts > t
    ensures Place(v, t) <= k
  {
    PlaceSplits(v, t);
  }

  lemma InsertKeepsSorted(v: Log, e: Entry)
    requires Sorted(v)
    ensures Sorted(InsertSorted(v, e))
  {
    PlaceSplits(v, e.ts);
    var j, w := Place(v, e.ts), InsertSorted(v, e);
    forall i | 0 <= i < |w|
      ensures w[i] == if i < j then v[i] else if i == j then e else v[i - 1]
    {
    }
  }

  /** An entry that is not older than any other goes to the end, behind those of the same time. */
  lemma NewestGoesLast(v: Log, e: Entry)
    requires forall i :: 0 <= i < |v| ==> v[i].ts <= e.ts
    ensures InsertSorted(v, e) == v + [e]
  {
    assert v[..|v|] == v;
  }

  /** Any other entry goes behind all that are older than it and before all that are not. */
  lemma OlderGoesBefore(v: Log, e: Entry) returns (j: nat)
    requires Sorted(v) && exists i :: 0 <= i < |v| && e.ts < v[i].ts
    ensures j < |v| && InsertSorted(v, e) == v[..j] + [e] + v[j..]
    ensures forall i :: 0 <= i < j ==> v[i].ts < e.ts
    ensures forall i :: j <= i < |v| ==> e.ts <= v[i].ts
  {
    PlaceSplits(v, e.ts);
    LowerBoundSplits(v, e.ts);
    j := Place(v, e.ts);
  }

  lemma InsertKeepsContents(v: Log, e: Entry)
    ensures multiset(InsertSorted(v, e)) == multiset(v) + multiset{e}
  {
    var j := Place(v, e.ts);
    assert v == v[..j] + v[j..];
  }

  lemma {:induction false} PlaceInSuffix(v: Log, k: nat, t: int)
    requires k <= |v|
    requires forall i :: 0 <= i < k ==> v[i].ts < t
    ensures Place(v, t) == k + Place(v[k..], t)
  {
    LowerBoundInSuffix(v, k, t);
  }

  lemma {:induction false} LowerBoundInSuffix(v: Log, k: nat, t: int)
    requires k <= |v|
    requires forall i :: 0 <= i < k ==> v[i].ts < t
    ensures LowerBound(v, t) == k + LowerBound(v[k..], t)
  {
    if k == 0 { assert v[0..] == v; }
    else {
      LowerBoundInSuffix(v[1..], k - 1, t);
      assert v[1..][k - 1..] == v[k..];
    }
  }

  lemma KeepAppend(v: Log, e: Entry, cutoff: int)
    ensures KeepFrom(v + [e], cutoff) == KeepFrom(v, cutoff) + if e.ts >= cutoff then [e] else []
  {
    assert (v + [e])[..|v|] == v;
  }

  lemma SelectAppend(v: Log, e: Entry, cutoff: int, level: Bytes)
    ensures Select(v + [e], cutoff, level)
            == Select(v, cutoff, level) + if Wanted(e, cutoff, level) then [e] else []
  {
    assert (v + [e])[..|v|] == v;
  }

  lemma {:induction false} KeepFromSuffix(v: Log, cutoff: int, k: nat)
    requires SplitAt(v, cutoff, k)
    ensures KeepFrom(v, cutoff) == v[k..]
    decreases |v|
  {
    hide KeepFrom;
    if v == [] { KeepNothing(cutoff); }
    else {
      var w, e := v[..|v| - 1], v[|v| - 1];
      assert v == w + [e];
      KeepAppend(w, e, cutoff);
      SplitFront(w, e, cutoff, k);
      if k == |v| { KeepFromSuffix(w, cutoff, k - 1); }
      else {
        KeepFromSuffix(w, cutoff, k);
        SuffixOfAppend(w, e, k);
      }
    }
  }

  lemma SplitFront(w: Log, e: Entry, cutoff: int, k: nat)
    requires SplitAt(w + [e], cutoff, k)
    ensures if k == |w| + 1 then e.ts < cutoff && SplitAt(w, cutoff, k - 1) else e.ts >= cutoff && SplitAt(w, cutoff, k)
  {
    var v := w + [e];
    assert v[|w|] == e;
    assert forall i :: 0 <= i < |w| ==> v[i] == w[i];
  }

  lemma SuffixOfAppend(w: Log, e: Entry, k: nat)
    requires k <= |w|
    ensures (w + [e])[k..] == w[k..] + [e]
  {
  }

  /** v[..k] is older than the cutoff, the rest is not. */
  predicate SplitAt(v: Log, cutoff: int, k: nat) {
    && k <= |v|
    && (forall i :: 0 <= i < k ==> v[i].ts < cutoff)
    && (forall i :: k <= i < |v| ==> v[i].ts >= cutoff)
  }

  lemma InsertAtSuffix(v: Log, j: nat, e: Entry, k: nat)
    requires j <= |v| && k <= |v|
    ensures k <= j ==> InsertAt(v, j, e)[k..] == InsertAt(v[k..], j - k, e)
    ensures k >= j ==> InsertAt(v, j, e)[k + 1..] == v[k..]
  {
  }

  lemma InsertAtSplits(v: Log, j: nat, e: Entry, cutoff: int, k: nat)
    requires SplitAt(v, cutoff, k) && j <= |v|
    ensures e.ts < cutoff && j <= k ==> SplitAt(InsertAt(v, j, e), cutoff, k + 1)
    ensures e.ts >= cutoff && k <= j ==> SplitAt(InsertAt(v, j, e), cutoff, k)
  {
  }

  lemma InsertBelowSplit(v: Log, e: Entry, cutoff: int, k: nat, j: nat)
    requires SplitAt(v, cutoff, k) && j <= k && e.ts < cutoff
    ensures KeepFrom(InsertAt(v, j, e), cutoff) == v[k..]
  {
    InsertAtSuffix(v, j, e, k);
    InsertAtSplits(v, j, e, cutoff, k);
    KeepFromSuffix(InsertAt(v, j, e), cutoff, k + 1);
  }

  lemma InsertAboveSplit(v: Log, e: Entry, cutoff: int, k: nat, j: nat)
    requires SplitAt(v, cutoff, k) && k <= j <= |v| && e.ts >= cutoff
    ensures KeepFrom(InsertAt(v, j, e), cutoff) == InsertAt(v[k..], j - k, e)
  {
    InsertAtSuffix(v, j, e, k);
    InsertAtSplits(v, j, e, cutoff, k);
    KeepFromSuffix(InsertAt(v, j, e), cutoff, k);
  }

  /** Where a vector splits at a cutoff, and what filtering it then leaves. */
  lemma SplitsAtLowerBound(v: Log, cutoff: int)
    requires Sorted(v)
    ensures SplitAt(v, cutoff, LowerBound(v, cutoff))
    ensures KeepFrom(v, cutoff) == v[LowerBound(v, cutoff)..]
  {
    LowerBoundSplits(v, cutoff);
    KeepFromSuffix(v, cutoff, LowerBound(v, cutoff));
  }

  lemma InsertOldThenKeep(v: Log, e: Entry, cutoff: int)
    requires Sorted(v) && e.ts < cutoff
    ensures KeepFrom(InsertSorted(v, e), cutoff) == KeepFrom(v, cutoff)
  {
    SplitsAtLowerBound(v, cutoff);
    PlaceAtMost(v, e.ts, LowerBound(v, cutoff));
    InsertBelowSplit(v, e, cutoff, LowerBound(v, cutoff), Place(v, e.ts));
  }

  lemma InsertNewThenKeep(v: Log, e: Entry, cutoff: int)
    requires Sorted(v) && e.ts >= cutoff
    ensures KeepFrom(InsertSorted(v, e), cutoff) == InsertSorted(KeepFrom(v, cutoff), e)
  {
    hide LowerBound, KeepFrom, Place, InsertAt;
    var k := LowerBound(v, cutoff);
    SplitsAtLowerBound(v, cutoff);
    var u := v[k..];
    PlaceInSuffix(v, k, e.ts);
    InsertAboveSplit(v, e, cutoff, k, k + Place(u, e.ts));
    assert KeepFrom(InsertSorted(v, e), cutoff) == InsertSorted(u, e);
  }

  /** Filtering after a sorted insertion is inserting after filtering, or nothing if the entry
      itself is too old. */
  lemma InsertThenKeep(v: Log, e: Entry, cutoff: int)
    requires Sorted(v)
    ensures KeepFrom(InsertSorted(v, e), cutoff)
            == if e.ts >= cutoff then InsertSorted(KeepFrom(v, cutoff), e) else KeepFrom(v, cutoff)
  {
    if e.ts < cutoff { InsertOldThenKeep(v, e, cutoff); } else { InsertNewThenKeep(v, e, cutoff); }
  }

  lemma {:induction false} KeepTwice(v: Log, early: int, late: int)
    requires early <= late
    ensures KeepFrom(KeepFrom(v, early), late) == KeepFrom(v, late)
  {
    if v != [] {
      var u, e := v[..|v| - 1], v[|v| - 1];
      KeepTwice(u, early, late);
      if e.ts >= early { KeepAppend(KeepFrom(u, early), e, late); }
      else { assert KeepFrom(v, early) == KeepFrom(u, early); }
    }
  }

  lemma {:induction false} KeepIsSorted(v: Log, cutoff: int)
    requires Sorted(v)
    ensures Sorted(KeepFrom(v, cutoff))
  {
    SplitsAtLowerBound(v, cutoff);
  }

  lemma {:induction false} SelectKept(v: Log, early: int, cutoff: int, level: Bytes)
    requires early <= cutoff
    ensures Select(KeepFrom(v, early), cutoff, level) == Select(v, cutoff, level)
  {
    if v != [] {
      var u, e := v[..|v| - 1], v[|v| - 1];
      SelectKept(u, early, cutoff, level);
      if e.ts >= early { SelectAppend(KeepFrom(u, early), e, cutoff, level); }
      else { assert KeepFrom(v, early) == KeepFrom(u, early); }
    }
  }

  // ----- eviction is invisible -----

  /** Every eviction so far read the clock at most at `clock`. */
  predicate ClockReached(ops: seq<Op>, clock: int) {
    forall i :: 0 <= i < |ops| && ops[i].Eviction? ==> ops[i].clock <= clock
  }

  lemma {:induction false} VectorsSorted(start: Store, ops: seq<Op>, app: Bytes)
    requires Sorted(Vec(start, app))
    ensures Sorted(Vec(Run(start, ops), app)) && Sorted(Vec(RunKeepingAll(start, ops), app))
    decreases |ops|
  {
    if ops != [] {
      var before, op := ops[..|ops| - 1], ops[|ops| - 1];
      VectorsSorted(start, before, app);
      StepKeepsSorted(Run(start, before), op, app);
      if op.Insertion? { StepKeepsSorted(RunKeepingAll(start, before), op, app); }
    }
  }

  lemma NothingIsSorted()
    ensures Sorted([])
  {
  }

  lemma StepKeepsSorted(s: Store, op: Op, app: Bytes)
    requires Sorted(Vec(s, app))
    ensures Sorted(Vec(Apply(s, op), app))
  {
    match op
    case Insertion(e) => InsertKeepsSorted(Vec(s, app), e);
    case Eviction(clock) => KeepIsSorted(Vec(s, app), clock - EVICTION_AGE);
  }

  /** What one operation does to the vector of one application. */
  function VecAfter(v: Log, op: Op, app: Bytes): Log {
    match op
    case Insertion(e) => if e.app == app then InsertSorted(v, e) else v
    case Eviction(clock) => KeepFrom(v, clock - EVICTION_AGE)
  }

  lemma ApplyOnVec(s: Store, op: Op, app: Bytes)
    ensures Vec(Apply(s, op), app) == VecAfter(Vec(s, app), op, app)
  {
  }

  lemma InsertSameAbove(v: Log, w: Log, e: Entry, cutoff: int)
    requires Sorted(v) && Sorted(w) && KeepFrom(v, cutoff) == KeepFrom(w, cutoff)
    ensures KeepFrom(InsertSorted(v, e), cutoff) == KeepFrom(InsertSorted(w, e), cutoff)
  {
    InsertThenKeep(v, e, cutoff);
    InsertThenKeep(w, e, cutoff);
  }

  /** One operation keeps two vectors alike from a cutoff on, if only the first is evicted. */
  lemma StepSameAbove(v: Log, w: Log, op: Op, app: Bytes, cutoff: int)
    requires Sorted(v) && Sorted(w) && KeepFrom(v, cutoff) == KeepFrom(w, cutoff)
    requires op.Eviction? ==> op.clock - EVICTION_AGE <= cutoff
    ensures KeepFrom(VecAfter(v, op, app), cutoff)
            == KeepFrom(if op.Insertion? then VecAfter(w, op, app) else w, cutoff)
  {
    hide KeepFrom, Sorted, InsertSorted;
    match op
    case Insertion(e) => InsertSameAbove(v, w, e, cutoff);
    case Eviction(clock) => KeepTwice(v, clock - EVICTION_AGE, cutoff);
  }

  /** Two stores that agree from a cutoff on still do after the same run, although only one of them
      evicts. */
  lemma {:induction false} SameAboveCutoff(start: Store, other: Store, ops: seq<Op>, app: Bytes, cutoff: int)
    requires Sorted(Vec(start, app)) && Sorted(Vec(other, app))
    requires KeepFrom(Vec(start, app), cutoff) == KeepFrom(Vec(other, app), cutoff)
    requires ClockReached(ops, cutoff + EVICTION_AGE)
    ensures KeepFrom(Vec(Run(start, ops), app), cutoff) == KeepFrom(Vec(RunKeepingAll(other, ops), app), cutoff)
    decreases |ops|
  {
    hide KeepFrom, Sorted, Vec, VecAfter, Apply;
    if ops != [] {
      var before, op := ops[..|ops| - 1], ops[|ops| - 1];
      assert forall i :: 0 <= i < |before| ==> before[i] == ops[i];
      SameAboveCutoff(start, other, before, app, cutoff);
      VectorsSorted(start, before, app);
      VectorsSorted(other, before, app);
      StepSameAbove(Vec(Run(start, before), app), Vec(RunKeepingAll(other, before), app), op, app, cutoff);
      ApplyOnVec(Run(start, before), op, app);
      if op.Insertion? {
        ApplyOnVec(RunKeepingAll(other, before), op, app);
        ApplyInsertion(RunKeepingAll(other, before), op.entry);
      }
    }
  }

  lemma ApplyInsertion(s: Store, e: Entry)
    ensures Apply(s, Insertion(e)) == Insert(s, e)
  {
  }

  /** Stores that agree from a query's cutoff on answer it alike. */
  lemma SameAnswer(s: Store, other: Store, app: Bytes, level: Bytes, window: int, now: int)
    requires var cutoff := now - window * SECOND; KeepFrom(Vec(s, app), cutoff) == KeepFrom(Vec(other, app), cutoff)
    ensures Logs(s, app, level, window, now) == Logs(other, app, level, window, now)
  {
    var cutoff := now - window * SECOND;
    SelectKept(Vec(s, app), cutoff, cutoff, level);
    SelectKept(Vec(other, app), cutoff, cutoff, level);
  }

  /** From any store whose vector is sorted: a query at a clock that no eviction was ahead of, over at
      most 24 hours, returns exactly what a store that never evicts returns, in the same order. */
  lemma EvictionInvisible(start: Store, ops: seq<Op>, app: Bytes, level: Bytes, window: int, now: int)
    requires Sorted(Vec(start, app)) && ClockReached(ops, now) && window <= DAY
    ensures Logs(Run(start, ops), app, level, window, now)
            == Logs(RunKeepingAll(start, ops), app, level, window, now)
  {
    SameAboveCutoff(start, start, ops, app, now - window * SECOND);
    SameAnswer(Run(start, ops), RunKeepingAll(start, ops), app, level, window, now);
  }

  ghost predicate Invisible(start: Store, ops: seq<Op>, app: Bytes, level: Bytes, window: int, now: int) {
    Logs(Run(start, ops), app, level, window, now) == Logs(RunKeepingAll(start, ops), app, level, window, now)
  }

  /** The window of a query decides whether evictions can ever show. */
  lemma EvictionInvisibleIffWindow(window: int)
    ensures (forall start: Store, ops: seq<Op>, app: Bytes, level: Bytes, now: int
               | Sorted(Vec(start, app)) && ClockReached(ops, now) :: Invisible(start, ops, app, level, window, now))
            <==> window <= 86400
  {
    if window <= DAY {
      forall start: Store, ops: seq<Op>, app: Bytes, level: Bytes, now: int
        | Sorted(Vec(start, app)) && ClockReached(ops, now)
        ensures Invisible(start, ops, app, level, window, now)
      {
        EvictionInvisible(start, ops, app, level, window, now);
      }
    } else {
      var e := Entry("a", "INFO", "m", -(window * SECOND));
      var start := Store(map["a" := [e]], map[]);
      var ops := [Eviction(0)];
      assert ops[..0] == [] && [e][..0] == [];
      assert KeepFrom([e][..0], -EVICTION_AGE) == [];
      assert Vec(Run(start, ops), "a") == [];
      assert Select([e][..0], -(window * SECOND), []) == [];
      assert Logs(RunKeepingAll(start, ops), "a", [], window, 0) == [e];
      assert Sorted(Vec(start, "a")) && ClockReached(ops, 0);
      assert !Invisible(start, ops, "a", [], window, 0);
    }
  }

  lemma {:induction false} KeepingAllConcat(start: Store, ops: seq<Op>, more: seq<Op>)
    ensures RunKeepingAll(start, ops + more) == RunKeepingAll(RunKeepingAll(start, ops), more)
    decreases |more|
  {
    if more == [] { assert ops + more == ops; }
    else {
      assert (ops + more)[..|ops + more| - 1] == ops + more[..|more| - 1];
      KeepingAllConcat(start, ops, more[..|more| - 1]);
    }
  }

  // ----- what comes in order stays in order -----

  /** The entries inserted for an application, in the order they came. */
  function Inserted(ops: seq<Op>, app: Bytes): Log {
    if ops == [] then []
    else
      var front, op := Inserted(ops[..|ops| - 1], app), ops[|ops| - 1];
      if op.Insertion? && op.entry.app == app then front + [op.entry] else front
  }

  /** Entries that come with times that never decrease are stored in the order they came, entries of
      the same time included, behind what was there. */
  lemma {:induction false} InOrderIsAppended(start: Store, ops: seq<Op>, app: Bytes)
    requires forall i :: 0 <= i < |ops| ==> ops[i].Insertion?
    requires Sorted(Vec(start, app) + Inserted(ops, app))
    ensures Vec(Run(start, ops), app) == Vec(start, app) + Inserted(ops, app)
    decreases |ops|
  {
    if ops == [] { assert Vec(start, app) + [] == Vec(start, app); }
    else {
      var before, e := ops[..|ops| - 1], ops[|ops| - 1].entry;
      var v := Vec(start, app) + Inserted(before, app);
      if e.app == app { assert Vec(start, app) + Inserted(ops, app) == v + [e]; }
      SortedFront(Vec(start, app) + Inserted(ops, app), v);
      InOrderIsAppended(start, before, app);
      ApplyOnVec(Run(start, before), ops[|ops| - 1], app);
      hide Run, Inserted, Vec, Apply;
      if e.app == app {
        assert forall i :: 0 <= i < |v| ==> v[i].ts <= (v + [e])[|v|].ts;
        NewestGoesLast(v, e);
      }
    }
  }

  lemma SortedFront(v: Log, w: Log)
    requires Sorted(v) && w <= v
    ensures Sorted(w)
    ensures forall i :: 0 <= i < |w| && |w| < |v| ==> v[i].ts <= v[|w|].ts
  {
  }

  // ----- what a run leaves in the store -----

  function Surviving(before: Log, op: Op, app: Bytes): Log {
    match op
    case Insertion(e) => if e.app == app then before + [e] else before
    case Eviction(clock) => KeepFrom(before, clock - EVICTION_AGE)
  }

  /** The entries of an application that were there from the start or inserted, and that no later
      eviction took out. */
  function Survivors(start: Log, ops: seq<Op>, app: Bytes): Log {
    if ops == [] then start else Surviving(Survivors(start, ops[..|ops| - 1], app), ops[|ops| - 1], app)
  }

  /** The maximum of a time and the timestamps of every insertion for an application. */
  function NewestInserted(since: int, ops: seq<Op>, app: Bytes): int {
    if ops == [] then since
    else
      var before := NewestInserted(since, ops[..|ops| - 1], app);
      match ops[|ops| - 1]
      case Insertion(e) => if e.app == app then Max(before, e.ts) else before
      case Eviction(_) => before
  }

  lemma {:induction false} KeepOfPermutation(v: Log, w: Log, cutoff: int)
    requires multiset(v) == multiset(w)
    ensures multiset(KeepFrom(v, cutoff)) == multiset(KeepFrom(w, cutoff))
  {
    forall e: Entry ensures multiset(KeepFrom(v, cutoff))[e] == multiset(KeepFrom(w, cutoff))[e] {
      KeepCounts(v, cutoff, e);
      KeepCounts(w, cutoff, e);
    }
  }

  lemma {:induction false} KeepCounts(v: Log, cutoff: int, e: Entry)
    ensures multiset(KeepFrom(v, cutoff))[e] == if e.ts >= cutoff then multiset(v)[e] else 0
  {
    if v == [] { KeepNothing(cutoff); }
    else {
      var front, last := v[..|v| - 1], v[|v| - 1];
      KeepCounts(front, cutoff, e);
      assert v == front + [last];
      KeepAppend(front, last, cutoff);
      hide KeepFrom;
      CountAppend(front, last, e);
      CountAppend(KeepFrom(front, cutoff), last, e);
    }
  }

  lemma KeepNothing(cutoff: int)
    ensures KeepFrom([], cutoff) == []
  {
  }

  lemma CountAppend(v: Log, x: Entry, e: Entry)
    ensures multiset(v + [x])[e] == multiset(v)[e] + if x == e then 1 else 0
  {
  }

  lemma InsertKeepsPermutation(v: Log, w: Log, e: Entry)
    requires multiset(v) == multiset(w)
    ensures multiset(InsertSorted(v, e)) == multiset(w + [e])
  {
    InsertKeepsContents(v, e);
  }

  lemma StepKeepsSurvivors(v: Log, w: Log, op: Op, app: Bytes)
    requires multiset(v) == multiset(w)
    ensures multiset(VecAfter(v, op, app)) == multiset(Surviving(w, op, app))
  {
    match op
    case Insertion(e) => if e.app == app { InsertKeepsPermutation(v, w, e); }
    case Eviction(clock) => KeepOfPermutation(v, w, clock - EVICTION_AGE);
  }

  /** After any run, from any store with sorted vectors, each vector is sorted and holds exactly the
      surviving entries of its application. */
  lemma {:induction false} RunRepresents(start: Store, ops: seq<Op>, app: Bytes)
    requires Sorted(Vec(start, app))
    ensures Sorted(Vec(Run(start, ops), app))
    ensures multiset(Vec(Run(start, ops), app)) == multiset(Survivors(Vec(start, app), ops, app))
    decreases |ops|
  {
    VectorsSorted(start, ops, app);
    if ops != [] {
      var before := ops[..|ops| - 1];
      RunRepresents(start, before, app);
      ApplyOnVec(Run(start, before), ops[|ops| - 1], app);
      StepKeepsSurvivors(Vec(Run(start, before), app), Survivors(Vec(start, app), before, app), ops[|ops| - 1], app);
    }
  }

  predicate Named(v: Log, app: Bytes) {
    forall i :: 0 <= i < |v| ==> v[i].app == app
  }

  lemma {:induction false} KeepNamed(v: Log, cutoff: int, app: Bytes)
    requires Named(v, app)
    ensures Named(KeepFrom(v, cutoff), app)
  {
    if v != [] { KeepNamed(v[..|v| - 1], cutoff, app); }
  }

  lemma StepKeepsNamed(v: Log, op: Op, app: Bytes)
    requires Named(v, app)
    ensures Named(VecAfter(v, op, app), app)
  {
    hide KeepFrom;
    if op.Eviction? { KeepNamed(v, op.clock - EVICTION_AGE, app); }
  }

  /** After any run, the entries of an application carry its name, if they did at the start. */
  lemma {:induction false} RunNamed(start: Store, ops: seq<Op>, app: Bytes)
    requires Named(Vec(start, app), app)
    ensures Named(Vec(Run(start, ops), app), app)
    decreases |ops|
  {
    hide Named, Vec, VecAfter, Apply;
    if ops != [] {
      var before, op := ops[..|ops| - 1], ops[|ops| - 1];
      RunNamed(start, before, app);
      ApplyOnVec(Run(start, before), op, app);
      StepKeepsNamed(Vec(Run(start, before), app), op, app);
    }
  }

  /** After any run, no empty vector is stored. */
  lemma {:induction false} NoEmptyVectors(start: Store, ops: seq<Op>, app: Bytes)
    requires app in start.data ==> start.data[app] != []
    ensures app in Run(start, ops).data ==> Run(start, ops).data[app] != []
    decreases |ops|
  {
    if ops != [] { NoEmptyVectors(start, ops[..|ops| - 1], app); }
  }

  /** What the last-seen time means: the newest of what was seen at the start and everything inserted
      for the application since, whatever was evicted. */
  lemma {:induction false} LastSeenIsNewest(start: Store, ops: seq<Op>, app: Bytes)
    ensures LastSeen(Run(start, ops), app) == NewestInserted(LastSeen(start, app), ops, app)
    decreases |ops|
  {
    if ops != [] { LastSeenIsNewest(start, ops[..|ops| - 1], app); }
  }

  /** The newest is a maximum: it is reached and not exceeded. */
  lemma {:induction false} NewestIsMaximum(since: int, ops: seq<Op>, app: Bytes)
    ensures var n := NewestInserted(since, ops, app);
            && since <= n
            && (forall i :: 0 <= i < |ops| && ops[i].Insertion? && ops[i].entry.app == app ==> ops[i].entry.ts <= n)
            && (n == since
                || exists i :: 0 <= i < |ops| && ops[i].Insertion? && ops[i].entry.app == app && ops[i].entry.ts == n)
    decreases |ops|
  {
    if ops != [] {
      var before, last := ops[..|ops| - 1], ops[|ops| - 1];
      NewestIsMaximum(since, before, app);
      assert forall i :: 0 <= i < |before| ==> before[i] == ops[i];
      var m := NewestInserted(since, before, app);
      if NewestInserted(since, ops, app) == m && m != since {
        var i :| 0 <= i < |before| && before[i].Insertion? && before[i].entry.app == app && before[i].entry.ts == m;
        assert ops[i].entry.ts == m;
      } else if NewestInserted(since, ops, app) != m {
        assert ops[|ops| - 1] == last;
      }
    }
  }

  // ----- queries -----

  /** A query over all levels of a sorted vector is a suffix of it. */
  lemma WindowIsSuffix(v: Log, cutoff: int)
    requires Sorted(v)
    ensures Select(v, cutoff, []) == v[LowerBound(v, cutoff)..]
  {
    SelectAllLevels(v, cutoff);
    SplitsAtLowerBound(v, cutoff);
  }

  lemma {:induction false} SelectAllLevels(v: Log, cutoff: int)
    ensures Select(v, cutoff, []) == KeepFrom(v, cutoff)
  {
    if v != [] { SelectAllLevels(v[..|v| - 1], cutoff); }
  }

  /** Exactly the wanted entries are returned, as often as they were stored, in their order. */
  lemma {:induction false} SelectCounts(v: Log, cutoff: int, level: Bytes, e: Entry)
    ensures multiset(Select(v, cutoff, level))[e]
            == if Wanted(e, cutoff, level) then multiset(v)[e] else 0
  {
    if v != [] {
      SelectCounts(v[..|v| - 1], cutoff, level, e);
      assert v == v[..|v| - 1] + [v[|v| - 1]];
    }
  }

  /** The sum of the values of a count table. */
  ghost function Total(counts: map<Bytes, nat>): nat {
    if counts == map[] then 0
    else
      var k :| k in counts;
      counts[k] + Total(counts - {k})
  }

  lemma {:induction false} TotalWithout(counts: map<Bytes, nat>, k: Bytes)
    requires k in counts
    ensures Total(counts) == counts[k] + Total(counts - {k})
  {
    var j :| j in counts && Total(counts) == counts[j] + Total(counts - {j});
    if j != k {
      TotalWithout(counts - {j}, k);
      TotalWithout(counts - {k}, j);
      assert counts - {j} - {k} == counts - {k} - {j};
    }
  }

  lemma TotalAfterIncrement(counts: map<Bytes, nat>, k: Bytes)
    ensures Total(counts[k := (if k in counts then counts[k] else 0) + 1]) == Total(counts) + 1
  {
    var c := counts[k := (if k in counts then counts[k] else 0) + 1];
    TotalWithout(c, k);
    assert c - {k} == counts - {k};
    if k in counts { TotalWithout(counts, k); } else { assert counts - {k} == counts; }
  }

  /** The table counts the wanted entries of a vector level by level, and nothing else. */
  ghost predicate CountsLevels(counts: map<Bytes, nat>, v: Log, cutoff: int) {
    && {"INFO", "WARN", "ERROR", "CRITICAL"} <= counts.Keys
    && (forall level: Bytes :: level != [] ==>
          |Select(v, cutoff, level)| == if level in counts then counts[level] else 0)
    && Total(counts) == |Select(v, cutoff, [])|
  }

  lemma CountsSkip(counts: map<Bytes, nat>, v: Log, e: Entry, cutoff: int)
    requires CountsLevels(counts, v, cutoff) && e.ts < cutoff
    ensures CountsLevels(counts, v + [e], cutoff)
  {
    forall level: Bytes ensures Select(v + [e], cutoff, level) == Select(v, cutoff, level) {
      SelectAppend(v, e, cutoff, level);
    }
  }

  lemma CountsAdd(counts: map<Bytes, nat>, v: Log, e: Entry, cutoff: int)
    requires CountsLevels(counts, v, cutoff) && e.ts >= cutoff
    ensures CountsLevels(counts[e.level := (if e.level in counts then counts[e.level] else 0) + 1],
                         v + [e], cutoff)
  {
    var c := counts[e.level := (if e.level in counts then counts[e.level] else 0) + 1];
    forall level: Bytes | level != []
      ensures |Select(v + [e], cutoff, level)| == if level in c then c[level] else 0
    {
      SelectAppend(v, e, cutoff, level);
    }
    SelectAppend(v, e, cutoff, []);
    TotalAfterIncrement(counts, e.level);
  }

  lemma {:induction false} ZeroTotal(counts: map<Bytes, nat>)
    requires forall k :: k in counts ==> counts[k] == 0
    ensures Total(counts) == 0
    decreases |counts|
  {
    if counts != map[] {
      var k :| k in counts;
      TotalWithout(counts, k);
      ZeroTotal(counts - {k});
    }
  }

  /** The table that getCountsByLevel starts from counts nothing. */
  lemma NothingCounted(counts: map<Bytes, nat>, cutoff: int)
    requires counts == map["INFO" := 0, "WARN" := 0, "ERROR" := 0, "CRITICAL" := 0]
    ensures CountsLevels(counts, [], cutoff)
  {
    ZeroTotal(counts);
  }

  // ----- how many entries a query counts -----

  /** The insertions for an application that a query wants. */
  function WantedInsertions(ops: seq<Op>, app: Bytes, cutoff: int, level: Bytes): nat {
    if ops == [] then 0
    else
      var op := ops[|ops| - 1];
      WantedInsertions(ops[..|ops| - 1], app, cutoff, level)
      + (if op.Insertion? && op.entry.app == app && Wanted(op.entry, cutoff, level) then 1 else 0)
  }

  lemma SelectNothing(cutoff: int, level: Bytes)
    ensures Select([], cutoff, level) == []
  {
  }

  lemma {:induction false} SelectConcat(v: Log, w: Log, cutoff: int, level: Bytes)
    ensures Select(v + w, cutoff, level) == Select(v, cutoff, level) + Select(w, cutoff, level)
    decreases |w|
  {
    hide Select, Wanted;
    SelectNothing(cutoff, level);
    if w == [] { assert v + w == v; }
    else {
      var front, last := w[..|w| - 1], w[|w| - 1];
      SelectConcat(v, front, cutoff, level);
      assert v + w == (v + front) + [last] && w == front + [last];
      SelectAppend(v + front, last, cutoff, level);
      SelectAppend(front, last, cutoff, level);
    }
  }

  lemma SelectOfOne(e: Entry, cutoff: int, level: Bytes)
    ensures |Select([e], cutoff, level)| == if Wanted(e, cutoff, level) then 1 else 0
  {
    assert [e][..0] == [];
  }

  lemma SelectInserted(v: Log, e: Entry, cutoff: int, level: Bytes)
    ensures |Select(InsertSorted(v, e), cutoff, level)|
            == |Select(v, cutoff, level)| + if Wanted(e, cutoff, level) then 1 else 0
  {
    hide Select, Wanted, Place;
    var j := Place(v, e.ts);
    var a, b := v[..j], v[j..];
    assert v == a + b;
    SelectConcat(a, b, cutoff, level);
    SelectConcat(a + [e], b, cutoff, level);
    SelectConcat(a, [e], cutoff, level);
    SelectOfOne(e, cutoff, level);
  }

  /** A store that never evicts counts what it started with and every insertion that is wanted. */
  lemma {:induction false} KeepingAllCounts(start: Store, ops: seq<Op>, app: Bytes, cutoff: int, level: Bytes)
    ensures |Select(Vec(RunKeepingAll(start, ops), app), cutoff, level)|
            == |Select(Vec(start, app), cutoff, level)| + WantedInsertions(ops, app, cutoff, level)
    decreases |ops|
  {
    hide Select, Wanted, InsertSorted;
    if ops != [] {
      var before, op := ops[..|ops| - 1], ops[|ops| - 1];
      KeepingAllCounts(start, before, app, cutoff, level);
      if op.Insertion? && op.entry.app == app {
        SelectInserted(Vec(RunKeepingAll(start, before), app), op.entry, cutoff, level);
      }
    }
  }

  /** From any sorted store, a query over at most 24 hours counts the entries it started with and the
      insertions since that lie in the window, whatever was evicted. */
  lemma QueryCountsInsertions(start: Store, ops: seq<Op>, app: Bytes, level: Bytes, window: int, now: int)
    requires Sorted(Vec(start, app)) && ClockReached(ops, now) && window <= DAY
    ensures var cutoff := now - window * SECOND;
            |Logs(Run(start, ops), app, level, window, now)|
            == |Select(Vec(start, app), cutoff, level)| + WantedInsertions(ops, app, cutoff, level)
  {
    hide Select, Run, RunKeepingAll, WantedInsertions, ClockReached;
    EvictionInvisible(start, ops, app, level, window, now);
    KeepingAllCounts(start, ops, app, now - window * SECOND, level);
  }

  // ----- in seconds and nanoseconds -----

  /** A query returns an entry, as often as it is stored, exactly if its time is within the window of
      whole seconds and its level is the one asked for, or none is. */
  lemma QueryReturns(s: Store, app: Bytes, level: Bytes, window: int, now: int, e: Entry)
    ensures multiset(Logs(s, app, level, window, now))[e]
            == if e.ts >= now - window * 1_000_000_000 && (level == [] || e.level == level)
               then multiset(Vec(s, app))[e] else 0
  {
    SelectCounts(Vec(s, app), now - window * SECOND, level, e);
  }

  /** A query returns exactly the positions whose entries are in the window and have the level, in the
      order of the vector. */
  lemma QueryKeepsOrder(s: Store, app: Bytes, level: Bytes, window: int, now: int) returns (at: seq<nat>)
    ensures Picks(Vec(s, app), Logs(s, app, level, window, now), at)
    ensures forall i :: 0 <= i < |Vec(s, app)| ==>
              var e := Vec(s, app)[i];
              i in at <==> e.ts >= now - window * 1_000_000_000 && (level == [] || e.level == level)
  {
    at := SelectPicks(Vec(s, app), now - window * SECOND, level);
  }

  lemma {:induction false} SelectPicks(v: Log, cutoff: int, level: Bytes) returns (at: seq<nat>)
    ensures Picks(v, Select(v, cutoff, level), at)
    ensures forall i :: 0 <= i < |v| ==> (i in at <==> v[i].ts >= cutoff && (level == [] || v[i].level == level))
    decreases |v|
  {
    at := [];
    if v != [] {
      var front, e := v[..|v| - 1], v[|v| - 1];
      at := SelectPicks(front, cutoff, level);
      assert v == front + [e];
      SelectAppend(front, e, cutoff, level);
      PicksMore(front, Select(front, cutoff, level), at, e);
      hide Select, Picks;
      if Wanted(e, cutoff, level) { at := at + [|front|]; }
      else { assert Select(front, cutoff, level) + [] == Select(front, cutoff, level); }
    }
  }

  /** An eviction leaves the entries it keeps in their order. */
  lemma EvictionKeepsOrder(s: Store, clock: int, app: Bytes) returns (at: seq<nat>)
    ensures Picks(Vec(s, app), Vec(Evict(s, clock), app), at)
    ensures forall i :: 0 <= i < |Vec(s, app)| ==> (i in at <==> Vec(s, app)[i].ts >= clock - 86_400_000_000_000)
  {
    ApplyOnVec(s, Eviction(clock), app);
    SelectAllLevels(Vec(s, app), clock - EVICTION_AGE);
    at := SelectPicks(Vec(s, app), clock - EVICTION_AGE, []);
  }

  /** An eviction keeps an entry, as often as it is stored, exactly if it is not older than 86400 seconds;
      an application without entries is gone. */
  lemma EvictionKeeps(s: Store, clock: int, app: Bytes, e: Entry)
    ensures multiset(Vec(Evict(s, clock), app))[e]
            == if e.ts >= clock - 86_400_000_000_000 then multiset(Vec(s, app))[e] else 0
    ensures app in Evict(s, clock).data ==> Evict(s, clock).data[app] != []
    ensures Evict(s, clock).lastSeen == s.lastSeen
  {
    ApplyOnVec(s, Eviction(clock), app);
    KeepCounts(Vec(s, app), clock - EVICTION_AGE, e);
  }
}
