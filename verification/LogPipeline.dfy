/**
 The pipeline as the source's class: the bodies of the consumer loop, of process_entry and of drain,
 with their counters updated in place, when no other thread interferes. PipelineMachine covers the
 interleavings.
 */
module Pipeline {
  import opened Prelude
  import opened PipelineMachine

  const MAX_LINES: nat := 20

  /** The last n elements. */
  function LastOf<T>(s: seq<T>, n: nat): seq<T> {
    if |s| <= n then s else s[|s| - n..]
  }

  /** The lines of one source, in the order of the entries. */
  function LinesOf(es: seq<Entry>, source: Bytes): seq<Bytes> {
    if es == [] then []
    else
      LinesOf(es[..|es| - 1], source)
      + if es[|es| - 1].source == source then [es[|es| - 1].line] else []
  }

  /** Pushing to the back and dropping the front keeps the last n. */
  lemma LastAppend<T>(s: seq<T>, x: T, n: nat)
    requires n > 0
    ensures var l := LastOf(s, n) + [x];
            LastOf(s + [x], n) == if |l| > n then l[1..] else l
  {
  }

  lemma LastOfIsShort<T>(s: seq<T>, n: nat)
    ensures |LastOf(s, n)| == (if |s| < n then |s| else n) && LastOf(s, n) == s[|s| - |LastOf(s, n)|..]
  {
  }

  lemma LinesAppend(es: seq<Entry>, e: Entry, source: Bytes)
    ensures LinesOf(es + [e], source)
            == if e.source == source then LinesOf(es, source) + [e.line] else LinesOf(es, source)
  {
    assert (es + [e])[..|es|] == es;
  }

  class LogPipeline {
    const engine: Engine
    var ring: seq<Entry>
    var queue: seq<Entry>
    var totalLines: nat
    var counters: map<Counter, nat>
    var recent: map<Bytes, seq<Bytes>>
    ghost var recorded: seq<Entry>

    constructor (engine: Engine, ring: seq<Entry>)
      ensures this.engine == engine && this.ring == ring && queue == [] && totalLines == 0
      ensures counters == map[] && recorded == [] && RecentValid()
    {
      this.engine, this.ring, queue, totalLines := engine, ring, [], 0;
      counters, recent, recorded := map[], map[], [];
    }

    function Value(c: Counter): nat
      reads this
    {
      if c in counters then counters[c] else 0
    }

    /** For every source, the last twenty of its recorded lines are kept. */
    ghost predicate RecentValid()
      reads this`recent, this`recorded
    {
      forall source: Bytes ::
        (if source in recent then recent[source] else []) == LastOf(LinesOf(recorded, source), MAX_LINES)
    }

    /** PatternEngine::match: the first rule whose pattern occurs in the line. */
    method Match(line: Bytes) returns (rule: Option<nat>)
      ensures rule == FirstMatchFrom(engine, line, 0)
    {
      for i := 0 to |engine.severities|
        invariant FirstMatchFrom(engine, line, 0) == FirstMatchFrom(engine, line, i)
      {
        if engine.occurs(i, line) { return Some(i); }
      }
      return None;
    }

    method FetchAdd(c: Counter)
      modifies this`counters
      ensures forall d :: Value(d) == old(Value(d)) + if d == c then 1 else 0
    {
      counters := counters[c := Value(c) + 1];
    }

    /** The match and the alert of one entry: every counter grows by the entry's share. */
    method Alert(e: Entry)
      modifies this`counters
      ensures forall c :: Value(c) == old(Value(c)) + Share(engine, c, e)
    {
      var rule := Match(e.line);
      if rule.Some? {
        FetchAdd(Matched);
        FetchAdd(Triggers(rule.value));
        FetchAdd(Alerts(engine.severities[rule.value]));
      }
    }

    /** One iteration of run's loop with an entry at hand: it is counted, recorded for the
        dashboard and handed to the pool. */
    method Dispatch() returns (popped: bool)
      requires RecentValid()
      modifies this
      ensures RecentValid() && popped == (old(ring) != [])
      ensures if popped then
                && old(ring) == [old(ring)[0]] + ring && queue == old(queue) + [old(ring)[0]]
                && totalLines == old(totalLines) + 1 && recorded == old(recorded) + [old(ring)[0]]
              else
                ring == [] && queue == old(queue) && totalLines == old(totalLines)
                && recorded == old(recorded)
      ensures counters == old(counters)
    {
      hide LinesOf, LastOf, RecentValid;
      popped := ring != [];
      if !popped { return; }
      var e := ring[0];
      ring := ring[1..];
      totalLines := totalLines + 1;
      RecordLine(e);
      queue := queue + [e];
    }

    /** RecentLines::add: push to the back, drop the front beyond twenty lines. */
    method RecordLine(e: Entry)
      requires RecentValid()
      modifies this`recent, this`recorded
      ensures RecentValid() && recorded == old(recorded) + [e]
      ensures e.source in recent
      ensures var was := if e.source in old(recent) then old(recent)[e.source] else [];
              && recent[e.source] == (if |was| < 20 then was + [e.line] else (was + [e.line])[1..])
              && |recent[e.source]| <= 20
      ensures forall source :: source in old(recent) && source != e.source ==>
                source in recent && recent[source] == old(recent)[source]
    {
      hide LinesOf, LastOf;
      var lines := (if e.source in recent then recent[e.source] else []) + [e.line];
      LastAppend(LinesOf(recorded, e.source), e.line, MAX_LINES);
      LastOfIsShort(LinesOf(recorded, e.source) + [e.line], MAX_LINES);
      if |lines| > MAX_LINES { lines := lines[1..]; }
      recent := recent[e.source := lines];
      forall source: Bytes
        ensures LinesOf(recorded + [e], source)
                == if e.source == source then LinesOf(recorded, source) + [e.line]
                   else LinesOf(recorded, source)
      {
        LinesAppend(recorded, e, source);
      }
      recorded := recorded + [e];
    }

    /** A worker runs the front task of the queue. */
    method ProcessFront()
      requires queue != []
      modifies this
      ensures queue == old(queue)[1..] && ring == old(ring) && totalLines == old(totalLines)
      ensures forall c :: Value(c) == old(Value(c)) + Share(engine, c, old(queue)[0])
    {
      var e := queue[0];
      queue := queue[1..];
      Alert(e);
    }

    /** drain: every entry left in the ring is counted and charged here, none goes to the pool. */
    method Drain()
      modifies this
      ensures ring == [] && queue == old(queue) && totalLines == old(totalLines) + |old(ring)|
      ensures forall c :: Value(c) == old(Value(c)) + Shares(engine, c, old(ring))
    {
      ghost var done := 0;
      while ring != []
        invariant done <= |old(ring)| && ring == old(ring)[done..]
        invariant queue == old(queue) && totalLines == old(totalLines) + done
        invariant forall c :: Value(c) == old(Value(c)) + Shares(engine, c, old(ring)[..done])
        decreases |ring|
      {
        var e := ring[0];
        ring := ring[1..];
        totalLines := totalLines + 1;
        Alert(e);
        forall c ensures Shares(engine, c, old(ring)[..done + 1])
                         == Shares(engine, c, old(ring)[..done]) + Share(engine, c, e)
        {
          assert old(ring)[..done + 1] == old(ring)[..done] + [e];
          SharesSnoc(engine, c, old(ring)[..done], e);
        }
        done := done + 1;
      }
      assert old(ring)[..done] == old(ring);
    }
  }
}
