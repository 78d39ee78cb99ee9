/**
 The project store as the source's class: a vector with tombstones, three maps into it and the file
 it is saved to. Every method is proved against the live projects, in creation order. The random
 ids and keys, the clock and the file's contents are arguments.
 */
module Projects {
  import opened Prelude
  import opened ProjectSpec

  class ProjectStore {
    var projects: seq<Project>
    var byId: map<Bytes, nat>
    var byKey: map<Bytes, nat>
    var byOwner: map<Bytes, seq<nat>>
    var disk: Option<seq<Project>>

    ghost function View(): seq<Project>
      reads this
    {
      Live(projects)
    }

    /** The indices agree with the vector, and a restart would find what is live now. */
    ghost predicate Valid()
      reads this
    {
      && Agree(projects, byId, byKey, byOwner)
      && View() == (match disk case None => [] case Some(file) => Kept(file))
    }

    /** What the indices say about ids, keys and owners is what is live. */
    lemma Indexed(id: Bytes, key: Bytes)
      requires Valid()
      ensures WellFormed(View())
      ensures id in byId <==> HasId(View(), id)
      ensures id in byId ==> byId[id] < |projects|
      ensures Find(View(), id) == if id in byId then Some(projects[byId[id]]) else None
      ensures key in byKey <==> HasKey(View(), key)
      ensures key in byKey ==> projects[byKey[key]] in View()
    {
      hide IdsAgree, KeysAgree, OwnersAgree, Live, WellFormed, HasId, HasKey, Find;
      AgreedIsWellFormed(projects, byId, byKey);
      IdResolves(projects, byId, byKey, id);
      KeyResolves(projects, byKey, key);
    }

    /** A store opened on a file, or on none. */
    constructor (file: Option<seq<Project>>)
      ensures disk == file
      ensures View() == (match file case None => [] case Some(f) => Kept(f))
      ensures WellFormed(View()) ==> Valid()
    {
      projects, byId, byKey, byOwner, disk := [], map[], map[], map[], file;
      new;
      if file.Some? { Load(file.value); }
    }

    /** The loop of load. */
    method Load(file: seq<Project>)
      modifies this`projects, this`byId, this`byKey, this`byOwner
      ensures View() == Kept(file)
      ensures WellFormed(View()) ==> Agree(projects, byId, byKey, byOwner)
    {
      projects, byId, byKey, byOwner := [], map[], map[], map[];
      for i := 0 to |file|
        invariant projects == View() == Kept(file[..i])
        invariant WellFormed(View()) ==> Agree(projects, byId, byKey, byOwner)
      {
        assert file[..i + 1][..i] == file[..i];
        var p := file[i];
        if p.id == [] || p.apiKey == [] { continue; }
        Append(p);
      }
      assert file[..|file|] == file;
    }

    /** One iteration of load: the indices are told, whatever they said before. */
    method Append(p: Project)
      requires projects == View() && p.id != []
      requires WellFormed(View()) ==> Agree(projects, byId, byKey, byOwner)
      modifies this`projects, this`byId, this`byKey, this`byOwner
      ensures projects == View() == old(projects) + [p]
      ensures WellFormed(View()) ==> Agree(projects, byId, byKey, byOwner)
    {
      hide Agree, WellFormed, Live;
      LiveAppend(projects, p);
      if WellFormed(projects + [p]) {
        PrefixOfWellFormed(projects, p);
        CreateAgrees(projects, byId, byKey, byOwner, p);
      }
      var idx := |projects|;
      byId := byId[p.id := idx];
      byKey := byKey[p.apiKey := idx];
      byOwner := byOwner[p.owner := (if p.owner in byOwner then byOwner[p.owner] else []) + [idx]];
      projects := projects + [p];
    }

    /** save_locked: the live projects, as an array. */
    method Save()
      modifies this`disk
      ensures disk == Some(View())
    {
      var arr: seq<Project> := [];
      for i := 0 to |projects|
        invariant arr == Live(projects[..i])
      {
        assert projects[..i + 1][..i] == projects[..i];
        var p := projects[i];
        if p.id == [] { continue; }
        arr := arr + [p];
      }
      assert projects[..|projects|] == projects;
      disk := Some(arr);
    }

    /** create_project. The error is empty on success. */
    method CreateProject(name: Bytes, owner: Bytes, id: Bytes, hex: Bytes, now: int)
      returns (error: Bytes, out: Option<Project>)
      requires Valid() && Fresh(View(), id, KEY_PREFIX + hex)
      modifies this
      ensures Valid()
      ensures View() == Next(old(View()), Create(Project(id, name, owner, KEY_PREFIX + hex, now)))
      ensures error == if name == [] then "Project name is required"
                       else if owner == [] then "Owner ID is required" else ""
      ensures out == if name == [] || owner == [] then None else Some(Project(id, name, owner, "lm_proj_" + hex, now))
      ensures View() == if out.None? then old(View()) else old(View()) + [out.value]
    {
      if name == [] { return "Project name is required", None; }
      if owner == [] { return "Owner ID is required", None; }
      var p := Project(id, name, owner, KEY_PREFIX + hex, now);
      Add(p);
      SaveValid();
      return "", Some(p);
    }

    /** The insertion of a new project into the vector and the maps. */
    method Add(p: Project)
      requires Agree(projects, byId, byKey, byOwner) && Fresh(View(), p.id, p.apiKey)
      modifies this`projects, this`byId, this`byKey, this`byOwner
      ensures Agree(projects, byId, byKey, byOwner) && View() == old(View()) + [p]
    {
      CreateAgrees(projects, byId, byKey, byOwner, p);
      hide Agree, Live;
      var idx := |projects|;
      byId := byId[p.id := idx];
      byKey := byKey[p.apiKey := idx];
      byOwner := byOwner[p.owner := (if p.owner in byOwner then byOwner[p.owner] else []) + [idx]];
      projects := projects + [p];
    }

    /** Saving agreeing indices. */
    method SaveValid()
      requires Agree(projects, byId, byKey, byOwner)
      modifies this`disk
      ensures Valid()
    {
      AgreedIsWellFormed(projects, byId, byKey);
      SavedIsKept(View());
      hide Agree;
      Save();
    }

    /** find_by_id. */
    method FindById(id: Bytes) returns (out: Option<Project>)
      requires Valid()
      ensures out == if id in AsMap(View()) then Some(AsMap(View())[id]) else None
    {
      Indexed(id, []);
      FindIsLookup(View(), id);
      AsMapHolds(View(), id);
      hide Agree;
      if id !in byId { return None; }
      return Some(projects[byId[id]]);
    }

    /** find_by_api_key: a key resolves exactly if it is the current key of a live project, and to
        that project. */
    method FindByApiKey(key: Bytes) returns (out: Option<Project>)
      requires Valid()
      ensures out.Some? <==> HasKey(View(), key)
      ensures out.Some? ==> out.value in View() && out.value.apiKey == key
    {
      Indexed([], key);
      if key !in byKey { return None; }
      return Some(projects[byKey[key]]);
    }

    /** list_by_owner: the owner's live projects, in creation order. */
    method ListByOwner(owner: Bytes) returns (out: seq<Project>)
      requires Valid()
      ensures out == OwnedBy(View(), owner)
    {
      out := [];
      PositionsPick(projects, |projects|, owner);
      assert projects[..|projects|] == projects;
      assert OwnersAgree(projects, byOwner);
      hide Agree, OwnersAgree;
      if owner !in byOwner { assert Picked(projects, []) == []; return; }
      var positions := byOwner[owner];
      for i := 0 to |positions|
        invariant Below(positions, |projects|) && out == Picked(projects, positions)[..i]
      {
        out := out + [projects[positions[i]]];
      }
    }

    /** delete_project. */
    method DeleteProject(id: Bytes, owner: Bytes) returns (error: Bytes)
      requires Valid()
      modifies this
      ensures Valid() && View() == Next(old(View()), Delete(id, owner))
      ensures error == if !HasId(old(View()), id) then "Project not found"
                       else if exists p :: p in old(View()) && p.id == id && p.owner == owner then ""
                       else "Not your project"
    {
      hide Agree, Live, Kept, WellFormed, Without, WithKey, Find, HasId, HasKey;
      Indexed(id, []);
      OwnsIff(View(), id, owner);
      if id !in byId { return "Project not found"; }
      var idx := byId[id];
      var p := projects[idx];
      if p.owner != owner { return "Not your project"; }
      Bury(id);
      SaveValid();
      return "";
    }

    /** The removal of a project from the maps, and its tombstone. */
    method Bury(id: Bytes)
      requires Agree(projects, byId, byKey, byOwner) && id in byId
      modifies this`projects, this`byId, this`byKey, this`byOwner
      ensures Agree(projects, byId, byKey, byOwner) && View() == Without(old(View()), id)
    {
      DeleteAgrees(projects, byId, byKey, byOwner, id);
      hide Agree, Live, Remove, Without;
      var idx := byId[id];
      var p := projects[idx];
      byKey := byKey - {p.apiKey};
      byOwner := byOwner[p.owner := Remove(if p.owner in byOwner then byOwner[p.owner] else [], idx)];
      byId := byId - {id};
      projects := projects[idx := projects[idx].(id := [])];
    }

    /** rotate_api_key: the new key, or nothing. */
    method RotateApiKey(id: Bytes, owner: Bytes, hex: Bytes) returns (key: Bytes)
      requires Valid() && !HasKey(View(), KEY_PREFIX + hex)
      modifies this
      ensures Valid() && View() == Next(old(View()), Rotate(id, owner, KEY_PREFIX + hex))
      ensures key == if exists p :: p in old(View()) && p.id == id && p.owner == owner then "lm_proj_" + hex else ""
    {
      hide Agree, Live, Kept, WellFormed, Without, WithKey, Find, HasId, HasKey;
      Indexed(id, []);
      OwnsIff(View(), id, owner);
      if id !in byId { return ""; }
      var idx := byId[id];
      var p := projects[idx];
      if p.owner != owner { return ""; }
      Rekey(id, KEY_PREFIX + hex);
      SaveValid();
      return KEY_PREFIX + hex;
    }

    /** The replacement of a project's key. */
    method Rekey(id: Bytes, key: Bytes)
      requires Agree(projects, byId, byKey, byOwner) && id in byId && key != [] && !HasKey(View(), key)
      modifies this`projects, this`byKey
      ensures Agree(projects, byId, byKey, byOwner) && View() == WithKey(old(View()), id, key)
    {
      RotateAgrees(projects, byId, byKey, byOwner, id, key);
      hide Agree, Live, WithKey;
      var idx := byId[id];
      byKey := byKey - {projects[idx].apiKey};
      projects := projects[idx := projects[idx].(apiKey := key)];
      byKey := byKey[key := idx];
    }

    /** size. */
    method Size() returns (count: nat)
      ensures count == |View()|
    {
      count := 0;
      for i := 0 to |projects|
        invariant count == |Live(projects[..i])|
      {
        assert projects[..i + 1][..i] == projects[..i];
        if projects[i].id != [] { count := count + 1; }
      }
      assert projects[..|projects|] == projects;
    }
  }

  lemma PrefixOfWellFormed(live: seq<Project>, p: Project)
    requires WellFormed(live + [p])
    ensures WellFormed(live) && Fresh(live, p.id, p.apiKey)
  {
    var all := live + [p];
    assert forall i :: 0 <= i < |live| ==> live[i] == all[i];
    assert all[|live|] == p;
  }

  /** A store opened on the file another one saved shows the same projects. */
  method Restart(store: ProjectStore) returns (again: ProjectStore)
    requires store.Valid()
    ensures fresh(again) && again.Valid() && again.View() == store.View()
  {
    AgreedIsWellFormed(store.projects, store.byId, store.byKey);
    again := new ProjectStore(store.disk);
  }
}
