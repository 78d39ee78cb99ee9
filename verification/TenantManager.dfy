/**
 The tenant manager as the source's class: a map of store objects filled lazily under a two-phase
 lock. What other threads do between the two phases is an argument: the projects whose stores they
 create. So are the files the stores are loaded from and the clock.
 */
module Tenants {
  import opened Prelude
  import S = TsdbSpec
  import C = TsdbCodec
  import P = ProjectSpec
  import Tsdb
  import Projects

  /** What a new store starts from. */
  ghost function Loaded(files: map<Bytes, Bytes>, pid: Bytes, now: int): S.Store {
    if pid in files then C.LoadFromDisk(files[pid], now) else S.EMPTY
  }

  class TenantManager {
    const projects: Projects.ProjectStore
    const defaultId: Bytes
    var tsdbs: map<Bytes, Tsdb.TSDB>

    /** Every project has a store of its own. */
    ghost predicate Valid()
      reads this
    {
      forall a, b :: a in tsdbs && b in tsdbs && a != b ==> tsdbs[a] != tsdbs[b]
    }

    ghost function Stores(): map<Bytes, S.Store>
      reads this, tsdbs.Values
    {
      map pid | pid in tsdbs :: tsdbs[pid].Abs()
    }

    constructor (projects: Projects.ProjectStore, defaultId: Bytes, files: map<Bytes, Bytes>, now: int)
      requires projects.Valid()
      ensures Valid() && this.projects == projects && this.defaultId == defaultId && fresh(tsdbs.Values)
      ensures Stores() == if defaultId != [] && P.HasId(projects.View(), defaultId)
                          then map[defaultId := Loaded(files, defaultId, now)] else map[]
    {
      this.projects, this.defaultId, tsdbs := projects, defaultId, map[];
      new;
      Prewarm(files, now);
    }

    /** The constructor's default project, if the project store has it. */
    method Prewarm(files: map<Bytes, Bytes>, now: int)
      requires tsdbs == map[] && projects.Valid()
      modifies this`tsdbs
      ensures Valid() && fresh(tsdbs.Values)
      ensures Stores() == if defaultId != [] && P.HasId(projects.View(), defaultId)
                          then map[defaultId := Loaded(files, defaultId, now)] else map[]
    {
      if defaultId == [] { return; }
      var found := projects.FindById(defaultId);
      P.AsMapHolds(projects.View(), defaultId);
      hide Loaded, P.HasId, P.AsMap, P.Live;
      if found.None? { return; }
      var t := GetOrCreate(defaultId, [], files, now);
      assert tsdbs.Keys == {defaultId};
    }

    /** The exclusive phase: look again, and create the store if it is still missing. */
    method Create(pid: Bytes, files: map<Bytes, Bytes>, now: int) returns (t: Tsdb.TSDB)
      requires Valid()
      modifies this`tsdbs
      ensures Valid() && pid in tsdbs && tsdbs[pid] == t
      ensures pid in old(tsdbs) ==> tsdbs == old(tsdbs)
      ensures pid !in old(tsdbs) ==> fresh(t) && tsdbs == old(tsdbs)[pid := t] && t.Abs() == Loaded(files, pid, now)
      ensures pid !in old(tsdbs) && pid in files ==> t.Abs() == C.LoadFromDisk(files[pid], now)
      ensures pid !in old(tsdbs) && pid !in files ==> t.Abs() == S.Store(map[], map[])
    {
      if pid in tsdbs { return tsdbs[pid]; }
      t := new Tsdb.TSDB();
      if pid in files { t.LoadFromDisk(files[pid], now); }
      tsdbs := tsdbs[pid := t];
    }

    /** get_or_create_tsdb: whatever the others create in between, the store returned is the one the
        map has, no store already there is replaced or changed, and every new one is just loaded. */
    method GetOrCreate(pid: Bytes, others: seq<Bytes>, files: map<Bytes, Bytes>, now: int) returns (t: Tsdb.TSDB)
      requires Valid()
      modifies this`tsdbs
      ensures Valid() && pid in tsdbs && tsdbs[pid] == t
      ensures Kept(old(tsdbs), tsdbs)
      ensures tsdbs.Keys == old(tsdbs).Keys + (if pid in old(tsdbs) then {} else (set o | o in others) + {pid})
      ensures forall p :: p in tsdbs && p !in old(tsdbs) ==> fresh(tsdbs[p]) && tsdbs[p].Abs() == Loaded(files, p, now)
    {
      if pid in tsdbs { return tsdbs[pid]; }
      for k := 0 to |others|
        invariant Valid() && Kept(old(tsdbs), tsdbs)
        invariant tsdbs.Keys == old(tsdbs).Keys + set o | o in others[..k]
        invariant forall p :: p in tsdbs && p !in old(tsdbs) ==>
                    fresh(tsdbs[p]) && tsdbs[p].Abs() == Loaded(files, p, now)
      {
        assert others[..k + 1] == others[..k] + [others[k]];
        var theirs := Create(others[k], files, now);
      }
      assert others[..|others|] == others;
      t := Create(pid, files, now);
    }

    /** ingest_to_project: the entry is inserted, once, into the project's store; every other store
        that was there is as before, and the empty project id is ignored. */
    method IngestToProject(pid: Bytes, entry: S.Entry, others: seq<Bytes>, files: map<Bytes, Bytes>, now: int)
      requires Valid()
      modifies this`tsdbs, tsdbs.Values
      ensures Valid() && Kept(old(tsdbs), tsdbs)
      ensures pid == [] ==> tsdbs == old(tsdbs) && Stores() == old(Stores())
      ensures pid != [] ==> pid in Stores() && Given(Before(old(Stores()), files, pid, now), Stores()[pid], entry)
      ensures forall p :: p in Stores() && p != pid ==> Stores()[p] == Before(old(Stores()), files, p, now)
    {
      if pid == [] { return; }
      var t := GetOrCreate(pid, others, files, now);
      ghost var mid := Stores();
      assert forall p :: p in mid ==> mid[p] == Before(old(Stores()), files, p, now);
      t.Insert(entry);
      hide S.Insert;
      assert forall p :: p in tsdbs && p != pid ==> tsdbs[p] != t;
    }

    /** route_ingest: refused exactly if no live project has the key; otherwise the entry goes to the
        live project that has it. */
    method RouteIngest(key: Bytes, app: Bytes, level: Bytes, message: Bytes, ts: int,
                       others: seq<Bytes>, files: map<Bytes, Bytes>, now: int)
      returns (ok: bool, ghost owner: Option<P.Project>)
      requires Valid() && projects.Valid()
      modifies this`tsdbs, tsdbs.Values
      ensures Valid() && Kept(old(tsdbs), tsdbs)
      ensures ok <==> P.HasKey(old(projects.View()), key)
      ensures !ok ==> tsdbs == old(tsdbs) && Stores() == old(Stores())
      ensures ok ==> owner.Some? && owner.value in old(projects.View()) && owner.value.apiKey == key
      ensures ok ==>
                && owner.value.id in Stores()
                && Given(Before(old(Stores()), files, owner.value.id, now), Stores()[owner.value.id],
                         S.Entry(app, level, message, ts))
      ensures ok ==> forall p :: p in Stores() && p != owner.value.id ==>
                       Stores()[p] == Before(old(Stores()), files, p, now)
    {
      var found := projects.FindByApiKey(key);
      owner := found;
      if found.None? { return false, None; }
      P.AgreedIsWellFormed(projects.projects, projects.byId, projects.byKey);
      assert found.value.id != [];
      IngestToProject(found.value.id, S.Entry(app, level, message, ts), others, files, now);
      ok := true;
    }

    /** get_tsdb; there is none for the empty id. */
    method GetTsdb(pid: Bytes, others: seq<Bytes>, files: map<Bytes, Bytes>, now: int) returns (t: Option<Tsdb.TSDB>)
      requires Valid()
      modifies this`tsdbs
      ensures Valid() && Kept(old(tsdbs), tsdbs)
      ensures t == if pid == [] then None else if pid in tsdbs then Some(tsdbs[pid]) else None
      ensures pid != [] ==> pid in tsdbs
      ensures pid == [] ==> tsdbs == old(tsdbs)
      ensures forall p :: p in Stores() ==> Stores()[p] == Before(old(Stores()), files, p, now)
    {
      if pid == [] { return None; }
      var found := GetOrCreate(pid, others, files, now);
      return Some(found);
    }
  }

  /** Every project that had a store still has the same one. */
  ghost predicate Kept(before: map<Bytes, Tsdb.TSDB>, after: map<Bytes, Tsdb.TSDB>) {
    forall pid :: pid in before ==> pid in after && after[pid] == before[pid]
  }

  /** A store was given one entry: by the sorted insertion if its vector was sorted, as every vector is
      that the store itself wrote, and somewhere in the vector otherwise. */
  ghost predicate Given(before: S.Store, after: S.Store, e: S.Entry) {
    && (S.Sorted(S.Vec(before, e.app)) ==> after == S.Insert(before, e))
    && S.InsertedSomewhere(before, after, e)
  }

  /** A store that starts from a file that a store wrote starts with the entries of the last 86400 seconds,
      in order, and answers every query over at most that, at a clock not before the load, as the store
      that wrote it did. */
  lemma FileIsLoaded(s: S.Store, order: seq<Bytes>, files: map<Bytes, Bytes>, pid: Bytes, load: int,
                     app: Bytes, level: Bytes, window: int, now: int)
    requires C.Storable(s.data) && C.Traverses(order, s.data) && C.KnownLevels(s.data)
    requires pid in files && files[pid] == C.Encode(order, s.data)
    requires load <= now && window <= 86400
    ensures S.Vec(Loaded(files, pid, load), app) == S.KeepFrom(S.Vec(s, app), load - 86_400_000_000_000)
    ensures S.Logs(Loaded(files, pid, load), app, level, window, now) == S.Logs(s, app, level, window, now)
  {
    C.LoadedIsRecent(s, order, load, app);
    C.RestartInvisible(s, order, load, app, level, window, now);
  }

  /** Without a file a store starts empty. */
  lemma NoFileIsLoaded(files: map<Bytes, Bytes>, pid: Bytes, now: int)
    requires pid !in files
    ensures Loaded(files, pid, now) == S.Store(map[], map[])
  {
  }

  /** A store that starts from an image that a store wrote starts sorted, so what it is then given is
      inserted in order. */
  lemma WrittenFilesLoadSorted(data: map<Bytes, S.Log>, order: seq<Bytes>, pid: Bytes, now: int, app: Bytes)
    requires C.Storable(data) && C.Traverses(order, data)
    requires forall a :: a in data ==> S.Sorted(data[a])
    ensures S.Sorted(S.Vec(Loaded(map[pid := C.Encode(order, data)], pid, now), app))
  {
    C.WrittenIsLoadedSorted(data, order, now, app);
  }

  /** What a project's store held before, or starts from. */
  ghost function Before(stores: map<Bytes, S.Store>, files: map<Bytes, Bytes>, pid: Bytes, now: int): S.Store {
    if pid in stores then stores[pid] else Loaded(files, pid, now)
  }
}
