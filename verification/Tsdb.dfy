/**
 The time-series store as the source's class: a map of vectors and a map of last-seen times,
 updated in place under one lock. Each method is proved against the store as a value.
 */
module Tsdb {
  import opened Prelude
  import S = TsdbSpec
  import C = TsdbCodec

  class TSDB {
    var data: map<Bytes, S.Log>
    var lastSeen: map<Bytes, int>

    function Abs(): S.Store
      reads this
    {
      S.Store(data, lastSeen)
    }

    /** Every vector is sorted. */
    ghost predicate Valid()
      reads this
    {
      forall app :: app in data ==> S.Sorted(data[app])
    }

    constructor ()
      ensures Valid() && Abs() == S.EMPTY
    {
      data, lastSeen := map[], map[];
    }

    /** std::lower_bound on the timestamps; it is only told anything by a sorted vector. */
    method LowerBound(v: S.Log, t: int) returns (k: nat)
      ensures k <= |v| && (S.Sorted(v) ==> k == S.LowerBound(v, t))
    {
      if S.Sorted(v) { S.LowerBoundSplits(v, t); }
      var lo, hi := 0, |v|;
      while lo < hi
        invariant 0 <= lo <= hi <= |v|
        invariant S.Sorted(v) ==> lo <= S.LowerBound(v, t) <= hi
      {
        var mid := (lo + hi) / 2;
        if v[mid].ts < t { lo := mid + 1; } else { hi := mid; }
      }
      k := lo;
    }

    /** insert: the sorted insertion, or an insertion somewhere if a loaded vector is out of order. */
    method Insert(entry: S.Entry)
      modifies this
      ensures S.Sorted(S.Vec(old(Abs()), entry.app)) ==> Abs() == S.Insert(old(Abs()), entry)
      ensures S.InsertedSomewhere(old(Abs()), Abs(), entry)
      ensures old(Valid()) ==> Valid()
    {
      hide S.Sorted, S.InsertAt, S.InsertSorted, S.LowerBound;
      var app, ts := entry.app, entry.ts;
      var vec := if app in data then data[app] else [];
      S.NothingIsSorted();
      if S.Sorted(vec) { S.InsertKeepsSorted(vec, entry); }
      var at, longer := InsertInVector(vec, entry);
      data := data[app := longer];
      var seen := if app in lastSeen then lastSeen[app] else 0;
      lastSeen := lastSeen[app := if seen < ts then ts else seen];
    }

    /** insert's change to one vector: push_back, or vector::insert at the lower bound. */
    method InsertInVector(vec: S.Log, entry: S.Entry) returns (ghost at: nat, longer: S.Log)
      ensures at <= |vec| && longer == S.InsertAt(vec, at, entry)
      ensures S.Sorted(vec) ==> longer == S.InsertSorted(vec, entry)
    {
      at := |vec|;
      if |vec| == 0 || vec[|vec| - 1].ts <= entry.ts {
        longer := vec + [entry];
        assert S.InsertAt(vec, at, entry) == longer;
      } else {
        var it := LowerBound(vec, entry.ts);
        at := it;
        longer := vec[..it] + [entry] + vec[it..];
      }
    }

    method GetLogs(app: Bytes, level: Bytes, lastNSeconds: int, now: int) returns (result: S.Log)
      ensures result == S.Logs(Abs(), app, level, lastNSeconds, now)
    {
      result := [];
      if app !in data { return; }
      var cutoff, vec := now - lastNSeconds * S.SECOND, data[app];
      for i := 0 to |vec|
        invariant result == S.Select(vec[..i], cutoff, level)
      {
        S.SelectAppend(vec[..i], vec[i], cutoff, level);
        assert vec[..i + 1] == vec[..i] + [vec[i]];
        var e := vec[i];
        if e.ts < cutoff { continue; }
        if level != [] && e.level != level { continue; }
        result := result + [e];
      }
      assert vec[..|vec|] == vec;
    }

    method GetCount(app: Bytes, level: Bytes, lastNSeconds: int, now: int) returns (count: nat)
      ensures count == |S.Logs(Abs(), app, level, lastNSeconds, now)|
    {
      count := 0;
      if app !in data { return; }
      var cutoff, vec := now - lastNSeconds * S.SECOND, data[app];
      for i := 0 to |vec|
        invariant count == |S.Select(vec[..i], cutoff, level)|
      {
        S.SelectAppend(vec[..i], vec[i], cutoff, level);
        assert vec[..i + 1] == vec[..i] + [vec[i]];
        var e := vec[i];
        if e.ts < cutoff { continue; }
        if level != [] && e.level != level { continue; }
        count := count + 1;
      }
      assert vec[..|vec|] == vec;
    }

    /** The count of every level equals the length of the query for that level, the four known
        levels always have a count, and the counts add up to the query over all levels. */
    method GetCountsByLevel(app: Bytes, lastNSeconds: int, now: int) returns (counts: map<Bytes, nat>)
      ensures S.CountsLevels(counts, S.Vec(Abs(), app), now - lastNSeconds * S.SECOND)
    {
      hide S.CountsLevels, S.Select;
      counts := map["INFO" := 0, "WARN" := 0, "ERROR" := 0, "CRITICAL" := 0];
      S.NothingCounted(counts, now - lastNSeconds * S.SECOND);
      if app !in data { return; }
      var cutoff, vec := now - lastNSeconds * S.SECOND, data[app];
      for i := 0 to |vec|
        invariant S.CountsLevels(counts, vec[..i], cutoff)
      {
        assert vec[..i + 1] == vec[..i] + [vec[i]];
        var e := vec[i];
        if e.ts < cutoff {
          S.CountsSkip(counts, vec[..i], e, cutoff);
          continue;
        }
        S.CountsAdd(counts, vec[..i], e, cutoff);
        counts := counts[e.level := (if e.level in counts then counts[e.level] else 0) + 1];
      }
      assert vec[..|vec|] == vec;
    }

    method GetLastSeen(app: Bytes) returns (ts: int)
      ensures ts == S.LastSeen(Abs(), app)
    {
      ts := if app in lastSeen then lastSeen[app] else 0;
    }

    /** std::remove_if and erase on one vector. */
    method RemoveOld(vec: S.Log, cutoff: int) returns (kept: S.Log)
      ensures kept == S.KeepFrom(vec, cutoff)
    {
      kept := [];
      for i := 0 to |vec|
        invariant kept == S.KeepFrom(vec[..i], cutoff)
      {
        S.KeepAppend(vec[..i], vec[i], cutoff);
        assert vec[..i + 1] == vec[..i] + [vec[i]];
        if vec[i].ts >= cutoff { kept := kept + [vec[i]]; }
      }
      assert vec[..|vec|] == vec;
    }

    /** The first loop of evict_old_entries filters every vector. */
    method FilterVectors(cutoff: int)
      modifies this`data
      ensures data == map app | app in old(data) :: S.KeepFrom(old(data)[app], cutoff)
    {
      var todo := data.Keys;
      while todo != {}
        invariant todo <= data.Keys == old(data).Keys
        invariant forall app :: app in data ==>
                    data[app] == if app in todo then old(data)[app]
                                 else S.KeepFrom(old(data)[app], cutoff)
      {
        var app :| app in todo;
        var kept := RemoveOld(data[app], cutoff);
        data := data[app := kept];
        todo := todo - {app};
      }
    }

    /** The second loop of evict_old_entries removes applications without entries. */
    method DropEmpty()
      modifies this`data
      ensures data == map app | app in old(data) && old(data)[app] != [] :: old(data)[app]
    {
      var todo := data.Keys;
      while todo != {}
        invariant todo <= data.Keys <= old(data).Keys
        invariant forall app :: app in data ==> data[app] == old(data)[app]
        invariant forall app :: app in old(data) ==>
                    (app in data <==> app in todo || old(data)[app] != [])
      {
        var app :| app in todo;
        if data[app] == [] { data := data - {app}; }
        todo := todo - {app};
      }
    }

    method EvictOldEntries(now: int)
      modifies this
      ensures Abs() == S.Evict(old(Abs()), now)
      ensures old(Valid()) ==> Valid()
    {
      var cutoff := now - S.EVICTION_AGE;
      FilterVectors(cutoff);
      DropEmpty();
      assert data == S.Evict(old(Abs()), now).data;
      forall app | app in old(data) && S.Sorted(old(data)[app])
        ensures S.Sorted(S.KeepFrom(old(data)[app], cutoff))
      {
        S.KeepIsSorted(old(data)[app], cutoff);
      }
    }

    /** The inner loop of write_binary. */
    method WriteEntries(vec: S.Log) returns (out: Bytes)
      ensures out == C.EncodeEntries(vec)
    {
      out := [];
      for i := 0 to |vec|
        invariant C.EncodeEntries(vec) == out + C.EncodeEntries(vec[i..])
      {
        var e := vec[i];
        assert vec[i..][0] == e && vec[i..][1..] == vec[i + 1..];
        C.Concat2(out, C.EncodeEntry(e), C.EncodeEntries(vec[i + 1..]));
        out := out + (C.Little(8, e.ts % C.U64) + C.Little(1, C.LevelToIdx(e.level))
                      + C.EncodeText(e.message));
      }
    }

    /** write_binary, traversing the map in the given order. */
    method WriteBinary(order: seq<Bytes>) returns (image: Bytes)
      requires C.Traverses(order, data)
      ensures image == C.Encode(order, data)
    {
      image := C.Little(8, C.MAGIC) + C.Little(4, |data| % C.U32);
      for i := 0 to |order|
        invariant forall app :: app in order[i..] ==> app in data
        invariant C.Encode(order, data) == image + C.EncodeApps(order[i..], data)
      {
        var app := order[i];
        assert order[i..][0] == app && order[i..][1..] == order[i + 1..];
        var entries := WriteEntries(data[app]);
        var block := C.EncodeText(app) + C.Little(4, |data[app]| % C.U32) + entries;
        C.Concat2(image, block, C.EncodeApps(order[i + 1..], data));
        image := image + block;
      }
    }

    method ReadEntry(app: Bytes, input: Bytes) returns (e: S.Entry, rest: Bytes)
      ensures e == C.DecodeEntry(input, app).0 && rest == C.DecodeEntry(input, app).1
    {
      var (ts, in1) := C.TakeInt(input, 8);
      var (idx, in2) := C.TakeInt(in1, 1);
      var (message, in3) := C.TakeText(in2);
      return S.Entry(app, C.IdxToLevel(idx), message, C.Signed64(ts)), in3;
    }

    method PushEntry(app: Bytes, e: S.Entry)
      requires app in data
      modifies this
      ensures app in data && Abs() == C.PushEntry(old(Abs()), app, e)
    {
      var seen := if app in lastSeen then lastSeen[app] else 0;
      lastSeen := lastSeen[app := if seen < e.ts then e.ts else seen];
      data := data[app := data[app] + [e]];
    }

    /** The inner loop of read_binary: n entries are appended to the vector of an application. */
    method ReadEntries(app: Bytes, n: nat, input: Bytes) returns (rest: Bytes)
      modifies this
      ensures Abs() == C.AddEntries(old(Abs()), app, C.DecodeEntries(input, app, n).0)
      ensures rest == C.DecodeEntries(input, app, n).1
    {
      hide C.DecodeEntry, C.DecodeEntries, C.AddEntries, C.PushEntry;
      ghost var s := Abs();
      ghost var (v, end) := C.DecodeEntries(input, app, n);
      ghost var done: S.Log := [];
      data := data[app := if app in data then data[app] else []];
      C.AddNone(s, app);
      var left := n;
      rest := input;
      while left > 0
        invariant app in data && Abs() == C.AddEntries(s, app, done)
        invariant v == done + C.DecodeEntries(rest, app, left).0
        invariant end == C.DecodeEntries(rest, app, left).1
      {
        C.DecodeEntriesStep(rest, app, left);
        var e;
        e, rest := ReadEntry(app, rest);
        C.AddEntriesSnoc(s, app, done, e);
        PushEntry(app, e);
        done, left := done + [e], left - 1;
      }
      C.DecodeNone(rest, app);
      assert v == done;
    }

    /** One iteration of read_binary's outer loop. */
    method ReadApp(input: Bytes) returns (rest: Bytes)
      modifies this
      ensures Abs() == C.DecodeApp(input, old(Abs())).0
      ensures rest == C.DecodeApp(input, old(Abs())).1
    {
      var (app, in1) := C.TakeText(input);
      var (n, in2) := C.TakeInt(in1, 4);
      rest := ReadEntries(app, n, in2);
    }

    /** The outer loop of read_binary. */
    method ReadApps(input: Bytes, numApps: nat)
      modifies this
      ensures Abs() == C.DecodeApps(input, old(Abs()), numApps)
    {
      hide C.DecodeApp;
      var rest, left := input, numApps;
      ghost var s := Abs();
      while left > 0
        invariant s == Abs() && C.DecodeApps(input, old(Abs()), numApps) == C.DecodeApps(rest, s, left)
      {
        C.DecodeAppsStep(rest, s, left);
        ghost var (next, end) := C.DecodeApp(rest, s);
        rest := ReadApp(rest);
        assert rest == end && Abs() == next;
        s, left := next, left - 1;
      }
    }

    /** read_binary into the store; on a wrong magic number nothing changes. */
    method ReadBinary(image: Bytes) returns (ok: bool)
      modifies this
      ensures match C.Decode(image, old(Abs()))
              case None => !ok && Abs() == old(Abs())
              case Some(s) => ok && Abs() == s
    {
      var (magic, in1) := C.TakeInt(image, 8);
      if magic != C.MAGIC { return false; }
      var (numApps, in2) := C.TakeInt(in1, 4);
      ReadApps(in2, numApps);
      return true;
    }

    /** load_from_disk: a failed read leaves the store empty. */
    method LoadFromDisk(image: Bytes, now: int)
      requires Abs() == S.EMPTY
      modifies this
      ensures Abs() == C.LoadFromDisk(image, now)
    {
      var ok := ReadBinary(image);
      if ok { EvictOldEntries(now); } else { data, lastSeen := map[], map[]; }
    }
  }
}
