/**
 The binary image of the store: little-endian, length-prefixed. Reading does not check the state of
 the stream: a short read leaves zero bytes.
 */
module TsdbCodec {
  import opened Prelude
  import opened TsdbSpec

  const MAGIC: nat := 0x4C4D_5453_4442_0001
  const U32: nat := 0x1_0000_0000
  const U64: nat := 0x1_0000_0000_0000_0000
  const I64: nat := 0x8000_0000_0000_0000

  // ----- integers -----

  function Power256(n: nat): (p: nat)
    ensures p > 0
  {
    if n == 0 then 1 else 256 * Power256(n - 1)
  }

  /** The n low bytes of x, least significant first. */
  function Little(n: nat, x: nat): (b: Bytes)
    ensures |b| == n
  {
    if n == 0 then [] else [(x % 256) as char] + Little(n - 1, x / 256)
  }

  function FromLittle(b: Bytes): nat {
    if b == [] then 0 else b[0] as int + 256 * FromLittle(b[1..])
  }

  /** A 64-bit two's-complement pattern read as a signed integer. */
  function Signed64(x: nat): int { if x < I64 then x else x - U64 }

  predicate IsInt64(x: int) { -(I64 as int) <= x < I64 }

  // ----- levels -----

  function LevelToIdx(level: Bytes): nat {
    if level == "WARN" then 1
    else if level == "ERROR" then 2
    else if level == "CRITICAL" then 3
    else 0
  }

  function IdxToLevel(idx: nat): Bytes {
    match idx
    case 1 => "WARN"
    case 2 => "ERROR"
    case 3 => "CRITICAL"
    case _ => "INFO"
  }

  // ----- writing -----

  /** A block of at most 2^32 - 1 bytes behind its truncated length. */
  function EncodeText(t: Bytes): Bytes {
    var n := |t| % U32;
    Little(4, n) + t[..n]
  }

  function EncodeEntry(e: Entry): Bytes {
    Little(8, e.ts % U64) + Little(1, LevelToIdx(e.level)) + EncodeText(e.message)
  }

  function EncodeEntries(v: Log): Bytes {
    if v == [] then [] else EncodeEntry(v[0]) + EncodeEntries(v[1..])
  }

  function EncodeApp(app: Bytes, v: Log): Bytes {
    EncodeText(app) + Little(4, |v| % U32) + EncodeEntries(v)
  }

  /** The applications in the order in which the map is traversed. */
  function EncodeApps(order: seq<Bytes>, data: map<Bytes, Log>): Bytes
    requires forall app :: app in order ==> app in data
  {
    if order == [] then []
    else EncodeApp(order[0], data[order[0]]) + EncodeApps(order[1..], data)
  }

  function Encode(order: seq<Bytes>, data: map<Bytes, Log>): Bytes
    requires forall app :: app in order ==> app in data
  {
    Little(8, MAGIC) + Little(4, |data| % U32) + EncodeApps(order, data)
  }

  // ----- reading -----

  /** n bytes from the input, padded with zeros if it is shorter, and what is left of it. */
  function Take(input: Bytes, n: nat): (r: (Bytes, Bytes))
    ensures |r.0| == n
  {
    if n <= |input| then (input[..n], input[n..])
    else (input + seq(n - |input|, (_: nat) => '\0'), [])
  }

  function TakeInt(input: Bytes, n: nat): (nat, Bytes) {
    var (b, rest) := Take(input, n);
    (FromLittle(b), rest)
  }

  function TakeText(input: Bytes): (Bytes, Bytes) {
    var (n, rest) := TakeInt(input, 4);
    Take(rest, n)
  }

  function DecodeEntry(input: Bytes, app: Bytes): (Entry, Bytes) {
    var (ts, in1) := TakeInt(input, 8);
    var (idx, in2) := TakeInt(in1, 1);
    var (message, rest) := TakeText(in2);
    (Entry(app, IdxToLevel(idx), message, Signed64(ts)), rest)
  }

  function DecodeEntries(input: Bytes, app: Bytes, n: nat): (Log, Bytes)
    decreases n
  {
    if n == 0 then ([], input)
    else
      var (e, rest) := DecodeEntry(input, app);
      var (v, rest') := DecodeEntries(rest, app, n - 1);
      ([e] + v, rest')
  }

  function NewestOf(v: Log, seed: int): int {
    if v == [] then seed else NewestOf(v[1..], Max(seed, v[0].ts))
  }

  /** Appends decoded entries to an application, as reading them one by one does. */
  function AddEntries(s: Store, app: Bytes, v: Log): Store {
    Store(s.data[app := Vec(s, app) + v],
          if v == [] then s.lastSeen else s.lastSeen[app := NewestOf(v, LastSeen(s, app))])
  }

  /** One entry pushed to the vector of an application, with the last-seen time moved along. */
  function PushEntry(s: Store, app: Bytes, e: Entry): Store {
    Store(s.data[app := Vec(s, app) + [e]], s.lastSeen[app := Max(LastSeen(s, app), e.ts)])
  }

  function DecodeApp(input: Bytes, s: Store): (Store, Bytes) {
    var (app, in1) := TakeText(input);
    var (n, in2) := TakeInt(in1, 4);
    var (v, rest) := DecodeEntries(in2, app, n);
    (AddEntries(s, app, v), rest)
  }

  function DecodeApps(input: Bytes, s: Store, n: nat): Store
    decreases n
  {
    if n == 0 then s
    else
      var (s', rest) := DecodeApp(input, s);
      DecodeApps(rest, s', n - 1)
  }

  /** The store after reading an image into it, or None for the wrong magic number. */
  function Decode(image: Bytes, s: Store): Option<Store> {
    var (magic, in1) := TakeInt(image, 8);
    if magic != MAGIC then None
    else
      var (n, in2) := TakeInt(in1, 4);
      Some(DecodeApps(in2, s, n))
  }

  lemma {:induction false} NewestAppend(v: Log, e: Entry, seed: int)
    ensures NewestOf(v + [e], seed) == Max(NewestOf(v, seed), e.ts)
  {
    if v == [] { assert [] + [e] == [e] && [e][1..] == []; }
    else {
      assert (v + [e])[1..] == v[1..] + [e];
      NewestAppend(v[1..], e, Max(seed, v[0].ts));
    }
  }

  lemma AddEntriesSnoc(s: Store, app: Bytes, v: Log, e: Entry)
    ensures AddEntries(s, app, v + [e]) == PushEntry(AddEntries(s, app, v), app, e)
  {
    NewestAppend(v, e, LastSeen(s, app));
    assert Vec(s, app) + (v + [e]) == Vec(s, app) + v + [e];
  }

  lemma AddNone(s: Store, app: Bytes)
    ensures AddEntries(s, app, []) == s.(data := s.data[app := Vec(s, app)])
  {
    assert Vec(s, app) + [] == Vec(s, app);
  }

  lemma DecodeNone(input: Bytes, app: Bytes)
    ensures DecodeEntries(input, app, 0) == ([], input)
  {
  }

  lemma DecodeEntriesStep(input: Bytes, app: Bytes, n: nat)
    requires n > 0
    ensures var (e, rest) := DecodeEntry(input, app);
            DecodeEntries(input, app, n)
            == ([e] + DecodeEntries(rest, app, n - 1).0, DecodeEntries(rest, app, n - 1).1)
  {
  }

  lemma DecodeAppsStep(input: Bytes, s: Store, n: nat)
    requires n > 0
    ensures DecodeApps(input, s, n)
            == DecodeApps(DecodeApp(input, s).1, DecodeApp(input, s).0, n - 1)
  {
  }

  // ----- round trips of the parts -----

  lemma {:induction false} LittleRoundTrip(n: nat, x: nat)
    requires x < Power256(n)
    ensures FromLittle(Little(n, x)) == x
  {
    if n > 0 {
      LittleRoundTrip(n - 1, x / 256);
      assert Little(n, x)[1..] == Little(n - 1, x / 256);
    }
  }

  lemma TakeIntOfLittle(n: nat, x: nat, rest: Bytes)
    requires x < Power256(n)
    ensures TakeInt(Little(n, x) + rest, n) == (x, rest)
  {
    LittleRoundTrip(n, x);
    var all := Little(n, x) + rest;
    assert all[..n] == Little(n, x) && all[n..] == rest;
  }

  lemma PowersOf256()
    ensures Power256(1) == 256 && Power256(4) == U32 && Power256(8) == U64
  {
    assert Power256(2) == 0x1_0000;
    assert Power256(3) == 0x100_0000;
    assert Power256(4) == U32;
    assert Power256(5) == 0x100_0000_0000;
    assert Power256(6) == 0x1_0000_0000_0000;
    assert Power256(7) == 0x100_0000_0000_0000;
  }

  lemma TakeCount(x: nat, rest: Bytes)
    requires x < U32
    ensures TakeInt(Little(4, x % U32) + rest, 4) == (x, rest)
  {
    PowersOf256();
    assert x % U32 == x;
    TakeIntOfLittle(4, x, rest);
  }

  lemma TakeWord(x: nat, rest: Bytes)
    requires x < U64
    ensures TakeInt(Little(8, x) + rest, 8) == (x, rest)
  {
    PowersOf256();
    TakeIntOfLittle(8, x, rest);
  }

  lemma TakeByte(x: nat, rest: Bytes)
    requires x < 256
    ensures TakeInt(Little(1, x) + rest, 1) == (x, rest)
  {
    PowersOf256();
    TakeIntOfLittle(1, x, rest);
  }

  lemma TakeTextOfEncoded(t: Bytes, rest: Bytes)
    requires |t| < U32
    ensures TakeText(EncodeText(t) + rest) == (t, rest)
  {
    Concat2(Little(4, |t| % U32), t[..|t| % U32], rest);
    assert t[..|t|] == t;
    TakeCount(|t|, t + rest);
    assert (t + rest)[..|t|] == t && (t + rest)[|t|..] == rest;
  }

  /** An entry as it comes back: a level other than the four known ones becomes INFO. */
  function Normal(e: Entry): Entry {
    e.(level := IdxToLevel(LevelToIdx(e.level)))
  }

  function NormalLog(v: Log): (w: Log)
    ensures |w| == |v|
  {
    seq(|v|, i requires 0 <= i < |v| => Normal(v[i]))
  }

  predicate StorableEntry(app: Bytes, e: Entry) {
    e.app == app && IsInt64(e.ts) && |e.message| < U32
  }

  predicate StorableLog(app: Bytes, v: Log) {
    |app| < U32 && |v| < U32 && forall i :: 0 <= i < |v| ==> StorableEntry(app, v[i])
  }

  lemma Concat3(a: Bytes, b: Bytes, c: Bytes, d: Bytes)
    ensures a + b + c + d == a + (b + (c + d))
  {
  }

  lemma Concat2(a: Bytes, b: Bytes, c: Bytes)
    ensures a + b + c == a + (b + c)
  {
  }

  lemma SignedRoundTrip(x: int)
    requires IsInt64(x)
    ensures Signed64(x % U64) == x
  {
  }

  lemma EntryReadBack(app: Bytes, e: Entry, rest: Bytes)
    requires StorableEntry(app, e)
    ensures DecodeEntry(EncodeEntry(e) + rest, app) == (Normal(e), rest)
  {
    var ts, idx, text := Little(8, e.ts % U64), Little(1, LevelToIdx(e.level)), EncodeText(e.message);
    Concat3(ts, idx, text, rest);
    TakeWord(e.ts % U64, idx + (text + rest));
    TakeByte(LevelToIdx(e.level), text + rest);
    TakeTextOfEncoded(e.message, rest);
    SignedRoundTrip(e.ts);
  }

  /** A written entry is read back, with the rest of the stream untouched; a level other than the four
      known ones comes back as INFO. */
  lemma EntryRoundTrip(app: Bytes, e: Entry, rest: Bytes)
    requires StorableEntry(app, e)
    ensures DecodeEntry(EncodeEntry(e) + rest, app)
            == (if KnownLevel(e.level) then e else e.(level := "INFO"), rest)
  {
    hide EncodeEntry, DecodeEntry;
    EntryReadBack(app, e, rest);
  }

  lemma {:induction false} EntriesRoundTrip(app: Bytes, v: Log, rest: Bytes)
    requires forall i :: 0 <= i < |v| ==> StorableEntry(app, v[i])
    ensures DecodeEntries(EncodeEntries(v) + rest, app, |v|) == (NormalLog(v), rest)
    decreases |v|
  {
    hide EncodeEntry, DecodeEntry, Normal, StorableEntry;
    if v == [] { assert EncodeEntries(v) + rest == rest; }
    else {
      var first, others := EncodeEntry(v[0]), EncodeEntries(v[1..]);
      Concat2(first, others, rest);
      EntryReadBack(app, v[0], others + rest);
      EntriesRoundTrip(app, v[1..], rest);
      assert NormalLog(v) == [Normal(v[0])] + NormalLog(v[1..]);
    }
  }

  lemma AppRoundTrip(app: Bytes, v: Log, s: Store, rest: Bytes)
    requires StorableLog(app, v)
    ensures DecodeApp(EncodeApp(app, v) + rest, s) == (AddEntries(s, app, NormalLog(v)), rest)
  {
    var count, body := Little(4, |v| % U32), EncodeEntries(v);
    Concat3(EncodeText(app), count, body, rest);
    TakeTextOfEncoded(app, count + (body + rest));
    TakeCount(|v|, body + rest);
    EntriesRoundTrip(app, v, rest);
  }

  // ----- round trip of the store -----

  ghost predicate Distinct(order: seq<Bytes>) {
    forall i, j :: 0 <= i < j < |order| ==> order[i] != order[j]
  }

  /** An order in which the map may be traversed: every key, once. */
  ghost predicate Traverses(order: seq<Bytes>, data: map<Bytes, Log>) {
    Distinct(order) && |order| == |data| && forall app :: app in order <==> app in data
  }

  ghost predicate Storable(data: map<Bytes, Log>) {
    |data| < U32 && forall app :: app in data ==> StorableLog(app, data[app])
  }

  /** The store after the applications of the order have been read into s, one by one. */
  function LoadInto(order: seq<Bytes>, data: map<Bytes, Log>, s: Store): Store
    requires forall app :: app in order ==> app in data
  {
    if order == [] then s
    else LoadInto(order[1..], data, AddEntries(s, order[0], NormalLog(data[order[0]])))
  }

  lemma {:induction false} AppsRoundTrip(order: seq<Bytes>, data: map<Bytes, Log>, s: Store)
    requires forall app :: app in order ==> app in data && StorableLog(app, data[app])
    ensures DecodeApps(EncodeApps(order, data), s, |order|) == LoadInto(order, data, s)
    decreases |order|
  {
    if order != [] {
      var app, tail := order[0], order[1..];
      AppRoundTrip(app, data[app], s, EncodeApps(tail, data));
      AppsRoundTrip(tail, data, AddEntries(s, app, NormalLog(data[app])));
    }
  }

  lemma {:induction false} LoadIntoContents(order: seq<Bytes>, data: map<Bytes, Log>, s: Store, app: Bytes)
    requires forall a :: a in order ==> a in data
    requires Distinct(order)
    ensures var t := LoadInto(order, data, s);
            && (app in t.data <==> app in s.data || app in order)
            && Vec(t, app) == Vec(s, app) + (if app in order then NormalLog(data[app]) else [])
            && LastSeen(t, app)
               == if app in order then NewestOf(NormalLog(data[app]), LastSeen(s, app))
                  else LastSeen(s, app)
    decreases |order|
  {
    if order != [] {
      LoadIntoContents(order[1..], data, AddEntries(s, order[0], NormalLog(data[order[0]])), app);
    }
  }

  lemma DecodeOfEncode(data: map<Bytes, Log>, order: seq<Bytes>)
    requires Storable(data) && Traverses(order, data)
    ensures Decode(Encode(order, data), EMPTY) == Some(LoadInto(order, data, EMPTY))
  {
    var magic, count, body := Little(8, MAGIC), Little(4, |data| % U32), EncodeApps(order, data);
    Concat2(magic, count, body);
    TakeWord(MAGIC, count + body);
    TakeCount(|data|, body);
    AppsRoundTrip(order, data, EMPTY);
  }

  /** Reading what was written, in whatever order the map was traversed, gives every application
      its entries again, in order, with each level normalised, and as last-seen time the maximum
      of 0 and the timestamps read. */
  lemma RoundTrip(data: map<Bytes, Log>, order: seq<Bytes>)
    requires Storable(data) && Traverses(order, data)
    ensures var r := Decode(Encode(order, data), EMPTY);
            && r.Some?
            && r.value.data == NormalData(data)
            && forall app: Bytes ::
                 LastSeen(r.value, app) == if app in data then NewestOf(NormalLog(data[app]), 0) else 0
  {
    DecodeOfEncode(data, order);
    var t := LoadInto(order, data, EMPTY);
    forall app: Bytes
      ensures app in t.data <==> app in data
      ensures app in data ==> t.data[app] == NormalLog(data[app])
      ensures LastSeen(t, app) == if app in data then NewestOf(NormalLog(data[app]), 0) else 0
    {
      LoadIntoContents(order, data, EMPTY, app);
    }
  }

  predicate KnownLevel(level: Bytes) {
    level == "INFO" || level == "WARN" || level == "ERROR" || level == "CRITICAL"
  }

  lemma NormalIsIdentityIffKnown(e: Entry)
    ensures Normal(e) == e <==> KnownLevel(e.level)
    ensures Normal(Normal(e)) == Normal(e)
  {
  }

  /** The round trip returns exactly the stored data if and only if all levels are among the four
      known ones. */
  lemma RoundTripExactIffKnown(data: map<Bytes, Log>, order: seq<Bytes>)
    requires Storable(data) && Traverses(order, data)
    ensures Decode(Encode(order, data), EMPTY).Some?
    ensures Decode(Encode(order, data), EMPTY).value.data == data <==>
            forall app :: app in data ==>
              forall i :: 0 <= i < |data[app]| ==> KnownLevel(data[app][i].level)
  {
    RoundTrip(data, order);
    var t := NormalData(data);
    if t == data {
      forall app, i | app in data && 0 <= i < |data[app]| ensures KnownLevel(data[app][i].level) {
        assert t[app][i] == Normal(data[app][i]);
        NormalIsIdentityIffKnown(data[app][i]);
      }
    }
    if forall app :: app in data ==>
         forall i :: 0 <= i < |data[app]| ==> KnownLevel(data[app][i].level) {
      forall app | app in data ensures t[app] == data[app] {
        forall i | 0 <= i < |data[app]| ensures t[app][i] == data[app][i] {
          NormalIsIdentityIffKnown(data[app][i]);
        }
      }
    }
  }

  function NormalData(data: map<Bytes, Log>): map<Bytes, Log> {
    map app | app in data :: NormalLog(data[app])
  }

  lemma NormalIsStorable(app: Bytes, v: Log)
    requires StorableLog(app, v)
    ensures StorableLog(app, NormalLog(v)) && NormalLog(NormalLog(v)) == NormalLog(v)
  {
    var w := NormalLog(v);
    forall i | 0 <= i < |w| ensures StorableEntry(app, w[i]) && Normal(w[i]) == w[i] {
      assert StorableEntry(app, v[i]);
      NormalIsIdentityIffKnown(v[i]);
    }
  }

  lemma NormalDataStorable(data: map<Bytes, Log>)
    requires Storable(data)
    ensures Storable(NormalData(data)) && NormalData(NormalData(data)) == NormalData(data)
  {
    var d := NormalData(data);
    assert d.Keys == data.Keys && |d| == |d.Keys| && |data| == |data.Keys|;
    forall app | app in d ensures StorableLog(app, d[app]) && NormalLog(d[app]) == d[app] {
      NormalIsStorable(app, data[app]);
    }
  }

  /** A second round trip changes nothing: what was read is written and read back as it is. */
  lemma SecondRoundTrip(data: map<Bytes, Log>, order: seq<Bytes>, order': seq<Bytes>)
    requires Storable(data) && Traverses(order, data)
    requires Decode(Encode(order, data), EMPTY).Some?
    requires Traverses(order', Decode(Encode(order, data), EMPTY).value.data)
    ensures var once := Decode(Encode(order, data), EMPTY).value;
            var twice := Decode(Encode(order', once.data), EMPTY);
            && twice.Some? && twice.value.data == once.data
            && forall app :: app in once.data ==> LastSeen(twice.value, app) == LastSeen(once, app)
  {
    RoundTrip(data, order);
    NormalDataStorable(data);
    RoundTrip(NormalData(data), order');
  }

  /** What load_from_disk leaves: an image with the wrong magic number leaves an empty store, any
      other is read and then cleared of entries older than 24 hours. */
  function LoadFromDisk(image: Bytes, clock: int): Store {
    match Decode(image, EMPTY)
    case None => EMPTY
    case Some(s) => Evict(s, clock)
  }

  /** A restart is invisible: a store that holds only known levels, written out and loaded at a
      clock no later than the query's, answers every query over at most 24 hours as before. */
  lemma RestartInvisible(s: Store, order: seq<Bytes>, clock: int,
                         app: Bytes, level: Bytes, window: int, now: int)
    requires Storable(s.data) && Traverses(order, s.data)
    requires forall a :: a in s.data ==>
               forall i :: 0 <= i < |s.data[a]| ==> KnownLevel(s.data[a][i].level)
    requires clock <= now && window <= DAY
    ensures Logs(LoadFromDisk(Encode(order, s.data), clock), app, level, window, now)
            == Logs(s, app, level, window, now)
  {
    RoundTripExactIffKnown(s.data, order);
    var read := Decode(Encode(order, s.data), EMPTY).value;
    EvictThenQuery(read, clock, app, level, window, now);
  }

  lemma EvictThenQuery(s: Store, clock: int, app: Bytes, level: Bytes, window: int, now: int)
    requires clock <= now && window <= DAY
    ensures Logs(Evict(s, clock), app, level, window, now) == Logs(s, app, level, window, now)
  {
    ApplyOnVec(s, Eviction(clock), app);
    SelectKept(Vec(s, app), clock - EVICTION_AGE, now - window * SECOND, level);
  }

  // ----- a life with restarts -----

  lemma NormalKeepsSorted(v: Log)
    requires Sorted(v)
    ensures Sorted(NormalLog(v))
  {
    hide IdxToLevel, LevelToIdx;
    assert forall i :: 0 <= i < |v| ==> NormalLog(v)[i].ts == v[i].ts;
  }

  /** What the store wrote is loaded with every vector sorted. */
  lemma WrittenIsLoadedSorted(data: map<Bytes, Log>, order: seq<Bytes>, clock: int, app: Bytes)
    requires Storable(data) && Traverses(order, data)
    requires forall a :: a in data ==> Sorted(data[a])
    ensures Sorted(Vec(LoadFromDisk(Encode(order, data), clock), app))
  {
    RoundTrip(data, order);
    var read := Decode(Encode(order, data), EMPTY).value;
    hide Encode, Decode, NormalLog;
    if app in data { NormalKeepsSorted(data[app]); }
    assert Sorted(Vec(read, app));
    ApplyOnVec(read, Eviction(clock), app);
    KeepIsSorted(Vec(read, app), clock - EVICTION_AGE);
  }

  ghost predicate KnownLevels(data: map<Bytes, Log>) {
    forall a :: a in data ==> forall i :: 0 <= i < |data[a]| ==> KnownLevel(data[a][i].level)
  }

  /** A restart after any run, and any run after the restart, are invisible together: queries over at
      most 24 hours answer as one store that was never restarted and never evicts. */
  lemma RunsAndRestartInvisible(start: Store, ops: seq<Op>, order: seq<Bytes>, clock: int, more: seq<Op>,
                                app: Bytes, level: Bytes, window: int, now: int)
    requires Sorted(Vec(start, app)) && window <= DAY
    requires Storable(Run(start, ops).data) && KnownLevels(Run(start, ops).data)
    requires Traverses(order, Run(start, ops).data)
    requires ClockReached(ops, now) && clock <= now && ClockReached(more, now)
    ensures Logs(Run(LoadFromDisk(Encode(order, Run(start, ops).data), clock), more), app, level, window, now)
            == Logs(RunKeepingAll(start, ops + more), app, level, window, now)
  {
    hide Encode, Decode, LoadFromDisk, Run, RunKeepingAll, Logs, KnownLevels, Storable, KeepFrom, ClockReached, Sorted;
    var cutoff, s := now - window * SECOND, Run(start, ops);
    var loaded, all := LoadFromDisk(Encode(order, s.data), clock), RunKeepingAll(start, ops);
    LoadedVector(s, order, clock, app);
    ClockLater(ops, now, cutoff + EVICTION_AGE);
    ClockLater(more, now, cutoff + EVICTION_AGE);
    VectorsSorted(start, ops, app);
    KeepIsSorted(Vec(s, app), clock - EVICTION_AGE);
    KeepTwice(Vec(s, app), clock - EVICTION_AGE, cutoff);
    SameAboveCutoff(start, start, ops, app, cutoff);
    SameAboveCutoff(loaded, all, more, app, cutoff);
    KeepingAllConcat(start, ops, more);
    SameAnswer(Run(loaded, more), RunKeepingAll(all, more), app, level, window, now);
  }

  /** The vector that is loaded from what a store wrote. */
  lemma LoadedVector(s: Store, order: seq<Bytes>, clock: int, app: Bytes)
    requires Storable(s.data) && Traverses(order, s.data) && KnownLevels(s.data)
    ensures Vec(LoadFromDisk(Encode(order, s.data), clock), app) == KeepFrom(Vec(s, app), clock - EVICTION_AGE)
  {
    RoundTripExactIffKnown(s.data, order);
    hide Encode, Decode, Storable, Traverses;
    var read := Decode(Encode(order, s.data), EMPTY).value;
    ApplyOnVec(read, Eviction(clock), app);
  }

  lemma ClockLater(ops: seq<Op>, clock: int, later: int)
    requires ClockReached(ops, clock) && clock <= later
    ensures ClockReached(ops, later)
  {
  }

  /** The newest of a loaded vector is a maximum: it is reached and not exceeded. */
  lemma {:induction false} NewestOfIsMaximum(v: Log, seed: int)
    ensures var n := NewestOf(v, seed);
            && seed <= n && (forall i :: 0 <= i < |v| ==> v[i].ts <= n)
            && (n == seed || exists i :: 0 <= i < |v| && v[i].ts == n)
    decreases |v|
  {
    if v != [] {
      var rest, m := v[1..], Max(seed, v[0].ts);
      NewestOfIsMaximum(rest, m);
      assert forall i :: 1 <= i < |v| ==> v[i] == rest[i - 1];
      if NewestOf(v, seed) != m {
        var i :| 0 <= i < |rest| && rest[i].ts == NewestOf(rest, m);
        assert v[i + 1].ts == NewestOf(v, seed);
      } else if m != seed {
        assert v[0].ts == m;
      }
    }
  }

  /** After a restart and any run, the last-seen time is the newest of 0, everything loaded for the
      application and everything inserted since. */
  lemma LastSeenAfterRestart(data: map<Bytes, Log>, order: seq<Bytes>, clock: int, more: seq<Op>, app: Bytes)
    requires Storable(data) && Traverses(order, data)
    ensures LastSeen(Run(LoadFromDisk(Encode(order, data), clock), more), app)
            == NewestInserted(if app in data then NewestOf(NormalLog(data[app]), 0) else 0, more, app)
  {
    RoundTrip(data, order);
    LastSeenIsNewest(LoadFromDisk(Encode(order, data), clock), more, app);
    hide Encode, Decode, NormalLog, NewestOf, Run, NewestInserted;
  }

  // ----- the layout of an image -----

  /** Four bytes, least significant first. */
  function Bytes4(n: nat): Bytes {
    [(n % 0x100) as char, (n / 0x100 % 0x100) as char, (n / 0x1_0000 % 0x100) as char, (n / 0x100_0000 % 0x100) as char]
  }

  lemma LittleStep(n: nat, x: nat)
    ensures Little(n + 1, x) == [(x % 256) as char] + Little(n, x / 256)
  {
  }

  lemma LittleInFour(n: nat, x: nat)
    ensures Little(n + 4, x) == Bytes4(x) + Little(n, x / 0x1_0000_0000)
  {
    hide Little;
    var x1, x2, x3 := x / 256, x / 256 / 256, x / 256 / 256 / 256;
    LittleStep(n + 3, x);
    LittleStep(n + 2, x1);
    LittleStep(n + 1, x2);
    LittleStep(n, x3);
    Divided(x);
    var rest := Little(n, x3 / 256);
    assert [(x % 256) as char] + ([(x1 % 256) as char] + ([(x2 % 256) as char] + ([(x3 % 256) as char] + rest)))
           == [(x % 256) as char, (x1 % 256) as char, (x2 % 256) as char, (x3 % 256) as char] + rest;
  }

  lemma Divided(n: nat)
    ensures n / 256 / 256 == n / 0x1_0000 && n / 256 / 256 / 256 == n / 0x100_0000
    ensures n / 256 / 256 / 256 / 256 == n / 0x1_0000_0000
  {
  }

  lemma LittleOfNone(x: nat)
    ensures Little(0, x) == []
  {
  }

  lemma LittleIsBytes4(n: nat)
    ensures Little(4, n) == Bytes4(n)
  {
    hide Little, Bytes4;
    LittleInFour(0, n);
    LittleOfNone(n / 0x1_0000_0000);
  }

  lemma LittleIsBytes8(n: nat)
    ensures Little(8, n) == Bytes4(n) + Bytes4(n / 0x1_0000_0000)
  {
    hide Little, Bytes4;
    LittleInFour(4, n);
    LittleIsBytes4(n / 0x1_0000_0000);
  }

  lemma LittleIsByte(n: nat)
    requires n < 256
    ensures Little(1, n) == [n as char]
  {
    LittleStep(0, n);
    LittleOfNone(n / 256);
  }

  /** Eight bytes of a timestamp's two's-complement pattern, least significant first; a byte for the level;
      the message behind its length. */
  lemma EntryLayout(e: Entry)
    requires |e.message| < 0x1_0000_0000
    ensures var pattern := e.ts % 0x1_0000_0000_0000_0000;
            var idx := if e.level == "WARN" then 1 else if e.level == "ERROR" then 2
                       else if e.level == "CRITICAL" then 3 else 0;
            EncodeEntry(e) == Bytes4(pattern) + Bytes4(pattern / 0x1_0000_0000) + [idx as char]
                              + Bytes4(|e.message|) + e.message
  {
    hide Little, LevelToIdx, Bytes4, EncodeText;
    LittleIsBytes8(e.ts % U64);
    LevelNumbers(e.level);
    LittleIsByte(LevelToIdx(e.level));
    TextLayout(e.message);
    var head := Bytes4(e.ts % U64) + Bytes4(e.ts % U64 / 0x1_0000_0000) + [LevelToIdx(e.level) as char];
    assert head + (Bytes4(|e.message|) + e.message) == head + Bytes4(|e.message|) + e.message;
  }

  lemma LevelNumbers(level: Bytes)
    ensures LevelToIdx(level)
            == if level == "WARN" then 1 else if level == "ERROR" then 2 else if level == "CRITICAL" then 3 else 0
  {
  }

  lemma SmallCount(n: nat)
    requires n < U32
    ensures n % U32 == n
  {
  }

  lemma TextLayout(t: Bytes)
    requires |t| < U32
    ensures EncodeText(t) == Bytes4(|t|) + t
  {
    hide Little, Bytes4;
    LittleIsBytes4(|t|);
    SmallCount(|t|);
    assert t[..|t|] == t;
  }

  /** An application: its name behind its length, the number of its entries, the entries. */
  lemma AppLayout(app: Bytes, v: Log)
    requires |app| < U32 && |v| < U32
    ensures EncodeApp(app, v) == Bytes4(|app|) + app + Bytes4(|v|) + EncodeEntries(v)
  {
    hide Little, Bytes4, EncodeText, EncodeEntries;
    TextLayout(app);
    LittleIsBytes4(|v|);
    SmallCount(|v|);
  }

  /** Entries follow one another, and so do applications, in the order of the traversal. */
  lemma SequenceLayout(v: Log, order: seq<Bytes>, data: map<Bytes, Log>)
    requires forall app :: app in order ==> app in data
    ensures EncodeEntries([]) == [] && EncodeApps([], data) == []
    ensures v != [] ==> EncodeEntries(v) == EncodeEntry(v[0]) + EncodeEntries(v[1..])
    ensures order != [] ==>
              EncodeApps(order, data) == EncodeApp(order[0], data[order[0]]) + EncodeApps(order[1..], data)
  {
    hide EncodeEntry, EncodeApp;
  }

  /** The eight bytes an image starts with. */
  const MAGIC_BYTES: Bytes := [1 as char, 0 as char, 'B', 'D', 'S', 'T', 'M', 'L']

  lemma MagicBytes()
    ensures Little(8, MAGIC) == MAGIC_BYTES
  {
    hide Little;
    LittleIsBytes8(MAGIC);
    assert MAGIC / 0x1_0000_0000 == 0x4C4D_5453;
    assert Bytes4(0x4C4D_5453) == ['S', 'T', 'M', 'L'];
    MagicLow();
  }

  lemma MagicLow()
    ensures Bytes4(MAGIC) == [1 as char, 0 as char, 'B', 'D']
  {
    ByteOf(MAGIC, 0x4C_4D54_5344_4200, 0x01);
    ByteOf(0x4C_4D54_5344_4200, 0x4C4D_5453_4442, 0x00);
    ByteOf(0x4C4D_5453_4442, 0x4C_4D54_5344, 0x42);
    ByteOf(0x4C_4D54_5344, 0x4C4D_5453, 0x44);
    Divided(MAGIC);
  }

  lemma ByteOf(x: nat, high: nat, low: nat)
    requires x == high * 256 + low && low < 256
    ensures x / 256 == high && x % 256 == low
  {
  }

  /** An image: the magic bytes, the number of applications, each application. */
  lemma ImageLayout(order: seq<Bytes>, data: map<Bytes, Log>)
    requires (forall app :: app in order ==> app in data) && |data| < U32
    ensures Encode(order, data) == MAGIC_BYTES + Bytes4(|data|) + EncodeApps(order, data)
  {
    hide EncodeApps, Little, Bytes4;
    MagicBytes();
    LittleIsBytes4(|data|);
    SmallCount(|data|);
  }

  lemma {:induction false} LittleOfNumber(b: Bytes)
    ensures Little(|b|, FromLittle(b)) == b
    decreases |b|
  {
    if b != [] {
      LittleOfNumber(b[1..]);
      LowByte(b[0] as int, FromLittle(b[1..]));
      assert b == [b[0]] + b[1..];
    }
  }

  lemma LowByte(low: int, high: nat)
    requires 0 <= low < 256
    ensures (low + 256 * high) % 256 == low && (low + 256 * high) / 256 == high
  {
  }

  /** A file that does not start with the magic bytes loads as an empty store. */
  lemma OtherFilesLoadNothing(image: Bytes, clock: int, s: Store)
    requires |image| < 8 || image[..8] != MAGIC_BYTES
    ensures Decode(image, s) == None && LoadFromDisk(image, clock) == Store(map[], map[])
  {
    hide Little, DecodeApps;
    var b := Take(image, 8).0;
    LittleOfNumber(b);
    MagicBytes();
    if |image| < 8 { assert b[7] == '\0' && MAGIC_BYTES[7] == 'L'; }
  }

  /** What a file that a store wrote is loaded as: the entries not older than 86400 seconds. */
  lemma LoadedIsRecent(s: Store, order: seq<Bytes>, clock: int, app: Bytes)
    requires Storable(s.data) && Traverses(order, s.data) && KnownLevels(s.data)
    ensures Vec(LoadFromDisk(Encode(order, s.data), clock), app) == KeepFrom(Vec(s, app), clock - 86_400_000_000_000)
  {
    LoadedVector(s, order, clock, app);
  }
}
