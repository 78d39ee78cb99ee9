/**
 Projects as the store's callers see them: the live projects in creation order. Beside it, the
 store's own representation, a vector with tombstones and three indices into it, and what keeps the
 two in agreement.
 */
module ProjectSpec {
  import opened Prelude

  datatype Project = Project(id: Bytes, name: Bytes, owner: Bytes, apiKey: Bytes, createdAt: int)

  const KEY_PREFIX: Bytes := "lm_proj_"

  // ----- live projects -----

  /** Ids are distinct and not empty, and so are keys. */
  ghost predicate WellFormed(live: seq<Project>) {
    && (forall i :: 0 <= i < |live| ==> live[i].id != [] && live[i].apiKey != [])
    && (forall i, j :: 0 <= i < j < |live| ==> live[i].id != live[j].id)
    && (forall i, j :: 0 <= i < j < |live| ==> live[i].apiKey != live[j].apiKey)
  }

  ghost predicate HasId(live: seq<Project>, id: Bytes) { exists i :: 0 <= i < |live| && live[i].id == id }

  ghost predicate HasKey(live: seq<Project>, key: Bytes) { exists i :: 0 <= i < |live| && live[i].apiKey == key }

  /** What the random generator is trusted for. */
  ghost predicate Fresh(live: seq<Project>, id: Bytes, key: Bytes) {
    id != [] && key != [] && !HasId(live, id) && !HasKey(live, key)
  }

  function OwnedBy(live: seq<Project>, owner: Bytes): seq<Project> {
    if live == [] then []
    else
      var front := OwnedBy(live[..|live| - 1], owner);
      if live[|live| - 1].owner == owner then front + [live[|live| - 1]] else front
  }

  function Without(live: seq<Project>, id: Bytes): seq<Project> {
    if live == [] then []
    else
      var front := Without(live[..|live| - 1], id);
      if live[|live| - 1].id != id then front + [live[|live| - 1]] else front
  }

  function WithKey(live: seq<Project>, id: Bytes, key: Bytes): seq<Project> {
    seq(|live|, i requires 0 <= i < |live| => if live[i].id == id then live[i].(apiKey := key) else live[i])
  }

  // ----- the plain map -----

  ghost function AsMap(live: seq<Project>): map<Bytes, Project> {
    if live == [] then map[] else AsMap(live[..|live| - 1])[live[|live| - 1].id := live[|live| - 1]]
  }

  lemma {:induction false} AsMapHolds(live: seq<Project>, id: Bytes)
    ensures id in AsMap(live) <==> HasId(live, id)
    ensures id in AsMap(live) ==> AsMap(live)[id].id == id && AsMap(live)[id] in live
    decreases |live|
  {
    if live != [] {
      var n := |live| - 1;
      AsMapHolds(live[..n], id);
      if live[n].id == id { assert live[n].id == id; }
      else if i :| 0 <= i < |live| && live[i].id == id { assert live[..n][i].id == id; }
    }
  }

  lemma AsMapAt(live: seq<Project>, i: nat)
    requires WellFormed(live) && i < |live|
    ensures live[i].id in AsMap(live) && AsMap(live)[live[i].id] == live[i]
  {
    AsMapHolds(live, live[i].id);
    assert live[i].id == live[i].id;
    var p := AsMap(live)[live[i].id];
    var j :| 0 <= j < |live| && live[j] == p;
  }

  lemma {:induction false} WithoutHolds(live: seq<Project>, id: Bytes)
    ensures forall p :: p in Without(live, id) <==> p in live && p.id != id
    decreases |live|
  {
    if live != [] {
      WithoutHolds(live[..|live| - 1], id);
      assert live == live[..|live| - 1] + [live[|live| - 1]];
    }
  }

  lemma {:induction false} WithoutNothing(live: seq<Project>, id: Bytes)
    requires !HasId(live, id)
    ensures Without(live, id) == live
    decreases |live|
  {
    if live != [] {
      var n := |live| - 1;
      forall i | 0 <= i < n ensures live[..n][i].id != id { assert live[i].id != id; }
      WithoutNothing(live[..n], id);
      assert live[n].id != id;
    }
  }

  /** The three updates, as updates of a plain map from id to project. */
  lemma CreateOnMap(live: seq<Project>, p: Project)
    ensures AsMap(live + [p]) == AsMap(live)[p.id := p]
  {
    assert (live + [p])[..|live|] == live;
  }

  lemma {:induction false} DeleteOnMap(live: seq<Project>, id: Bytes)
    ensures AsMap(Without(live, id)) == AsMap(live) - {id}
    decreases |live|
  {
    hide AsMap, Without;
    LiveNothing();
    if live != [] {
      var n := |live| - 1;
      var front, p := live[..n], live[n];
      DeleteOnMap(front, id);
      CreateOnMap(front, p);
      CreateOnMap(Without(front, id), p);
      WithoutAppend(front, p, id);
      assert live == front + [p];
      RemoveAfterUpdate(AsMap(front), p, id);
    }
  }

  lemma RemoveAfterUpdate(m: map<Bytes, Project>, p: Project, id: Bytes)
    ensures m[p.id := p] - {id} == if p.id == id then m - {id} else (m - {id})[p.id := p]
  {
  }

  lemma {:induction false} RotateOnMap(live: seq<Project>, id: Bytes, key: Bytes)
    requires HasId(live, id) && WellFormed(live)
    ensures id in AsMap(live)
    ensures AsMap(WithKey(live, id, key)) == AsMap(live)[id := AsMap(live)[id].(apiKey := key)]
    decreases |live|
  {
    var n := |live| - 1;
    AsMapHolds(live, id);
    var rotated := WithKey(live, id, key);
    assert rotated[..n] == WithKey(live[..n], id, key);
    if live[n].id == id {
      assert forall i :: 0 <= i < n ==> live[..n][i].id != id;
      assert rotated[..n] == live[..n];
    } else {
      var i :| 0 <= i < |live| && live[i].id == id;
      assert live[..n][i].id == id;
      RotateOnMap(live[..n], id, key);
    }
  }

  // ----- the vector and its indices -----

  /** The projects of a vector that are not tombstones. */
  function Live(ps: seq<Project>): seq<Project> {
    if ps == [] then []
    else
      var front := Live(ps[..|ps| - 1]);
      if ps[|ps| - 1].id != [] then front + [ps[|ps| - 1]] else front
  }

  /** The positions of an owner's live projects. */
  function Positions(ps: seq<Project>, owner: Bytes): seq<nat> {
    if ps == [] then []
    else
      var n := |ps| - 1;
      var front := Positions(ps[..n], owner);
      if ps[n].id != [] && ps[n].owner == owner then front + [n] else front
  }

  function Remove(list: seq<nat>, x: nat): seq<nat> {
    if list == [] then []
    else
      var front := Remove(list[..|list| - 1], x);
      if list[|list| - 1] != x then front + [list[|list| - 1]] else front
  }

  ghost predicate IdsAgree(ps: seq<Project>, byId: map<Bytes, nat>) {
    && (forall id :: id in byId ==> id != [] && byId[id] < |ps| && ps[byId[id]].id == id)
    && (forall i :: 0 <= i < |ps| && ps[i].id != [] ==> ps[i].id in byId && byId[ps[i].id] == i)
  }

  ghost predicate KeysAgree(ps: seq<Project>, byKey: map<Bytes, nat>) {
    && (forall key :: key in byKey ==>
          key != [] && byKey[key] < |ps| && ps[byKey[key]].id != [] && ps[byKey[key]].apiKey == key)
    && (forall i :: 0 <= i < |ps| && ps[i].id != [] ==> ps[i].apiKey in byKey && byKey[ps[i].apiKey] == i)
  }

  ghost predicate OwnersAgree(ps: seq<Project>, byOwner: map<Bytes, seq<nat>>) {
    forall owner: Bytes :: Positions(ps, owner) == if owner in byOwner then byOwner[owner] else []
  }

  ghost predicate Agree(ps: seq<Project>, byId: map<Bytes, nat>, byKey: map<Bytes, nat>,
                        byOwner: map<Bytes, seq<nat>>)
  {
    IdsAgree(ps, byId) && KeysAgree(ps, byKey) && OwnersAgree(ps, byOwner)
  }

  /** A vector position holds a live project, and every live project is at one. */
  lemma {:induction false} LiveHolds(ps: seq<Project>, p: Project)
    ensures p in Live(ps) <==> exists i :: 0 <= i < |ps| && ps[i] == p && p.id != []
    decreases |ps|
  {
    if ps != [] {
      var n := |ps| - 1;
      LiveHolds(ps[..n], p);
      if i :| 0 <= i < n && ps[i] == p && p.id != [] { assert ps[..n][i] == p; }
    }
  }

  lemma LiveAppend(ps: seq<Project>, p: Project)
    ensures Live(ps + [p]) == if p.id != [] then Live(ps) + [p] else Live(ps)
  {
    assert (ps + [p])[..|ps|] == ps;
  }

  lemma PositionsAppend(ps: seq<Project>, p: Project, owner: Bytes)
    ensures Positions(ps + [p], owner)
            == if p.id != [] && p.owner == owner then Positions(ps, owner) + [|ps|] else Positions(ps, owner)
  {
    assert (ps + [p])[..|ps|] == ps;
  }

  // ----- agreement makes the live projects well formed -----

  lemma {:induction false} AgreedIsWellFormed(ps: seq<Project>, byId: map<Bytes, nat>, byKey: map<Bytes, nat>)
    requires IdsAgree(ps, byId) && KeysAgree(ps, byKey)
    ensures WellFormed(Live(ps))
  {
    PrefixWellFormed(ps, byId, byKey, |ps|);
    assert ps[..|ps|] == ps;
  }

  lemma CreateWellFormed(live: seq<Project>, p: Project)
    requires WellFormed(live) && Fresh(live, p.id, p.apiKey)
    ensures WellFormed(live + [p])
  {
  }

  lemma NothingWellFormed()
    ensures WellFormed([])
  {
  }

  lemma {:induction false} PrefixWellFormed(ps: seq<Project>, byId: map<Bytes, nat>, byKey: map<Bytes, nat>, n: nat)
    requires IdsAgree(ps, byId) && KeysAgree(ps, byKey) && n <= |ps|
    ensures WellFormed(Live(ps[..n]))
  {
    hide Live, WellFormed;
    NoPositions(ps, []);
    NothingWellFormed();
    if n > 0 {
      PrefixWellFormed(ps, byId, byKey, n - 1);
      LivePrefix(ps, n);
      if ps[n - 1].id != [] {
        NewToPrefix(ps, byId, byKey, n - 1);
        CreateWellFormed(Live(ps[..n - 1]), ps[n - 1]);
      }
    }
  }

  /** No earlier live position has a position's id or key. */
  lemma NewToPrefix(ps: seq<Project>, byId: map<Bytes, nat>, byKey: map<Bytes, nat>, n: nat)
    requires IdsAgree(ps, byId) && KeysAgree(ps, byKey) && n < |ps| && ps[n].id != []
    ensures Fresh(Live(ps[..n]), ps[n].id, ps[n].apiKey)
  {
    var front := Live(ps[..n]);
    forall i | 0 <= i < |front| ensures front[i].id != ps[n].id && front[i].apiKey != ps[n].apiKey {
      LiveHolds(ps[..n], front[i]);
      var k :| 0 <= k < n && ps[..n][k] == front[i];
      assert ps[k] == front[i];
    }
  }

  // ----- the three updates keep the agreement -----

  lemma LivePrefix(ps: seq<Project>, n: nat)
    requires 0 < n <= |ps|
    ensures Live(ps[..n]) == if ps[n - 1].id != [] then Live(ps[..n - 1]) + [ps[n - 1]] else Live(ps[..n - 1])
  {
    assert ps[..n] == ps[..n - 1] + [ps[n - 1]];
    LiveAppend(ps[..n - 1], ps[n - 1]);
  }

  lemma PositionsPrefix(ps: seq<Project>, n: nat, owner: Bytes)
    requires 0 < n <= |ps|
    ensures var front := Positions(ps[..n - 1], owner);
            Positions(ps[..n], owner)
            == if ps[n - 1].id != [] && ps[n - 1].owner == owner then front + [n - 1] else front
  {
    assert ps[..n] == ps[..n - 1] + [ps[n - 1]];
    PositionsAppend(ps[..n - 1], ps[n - 1], owner);
  }

  lemma NoPositions(ps: seq<Project>, owner: Bytes)
    ensures Positions(ps[..0], owner) == [] && Live(ps[..0]) == []
    ensures forall x: nat :: Remove([], x) == []
    ensures forall o: Bytes :: OwnedBy([], o) == []
  {
    assert ps[..0] == [];
  }

  /** A live position's id and key are those of a live project. */
  lemma LivePosition(ps: seq<Project>, i: nat)
    requires i < |ps| && ps[i].id != []
    ensures HasId(Live(ps), ps[i].id) && HasKey(Live(ps), ps[i].apiKey)
  {
    LiveHolds(ps, ps[i]);
    var k :| 0 <= k < |Live(ps)| && Live(ps)[k] == ps[i];
  }

  lemma CreateAgrees(ps: seq<Project>, byId: map<Bytes, nat>, byKey: map<Bytes, nat>, byOwner: map<Bytes, seq<nat>>,
                     p: Project)
    requires Agree(ps, byId, byKey, byOwner) && Fresh(Live(ps), p.id, p.apiKey)
    ensures Agree(ps + [p], byId[p.id := |ps|], byKey[p.apiKey := |ps|],
                  byOwner[p.owner := (if p.owner in byOwner then byOwner[p.owner] else []) + [|ps|]])
    ensures Live(ps + [p]) == Live(ps) + [p]
  {
    LiveAppend(ps, p);
    forall i | 0 <= i < |ps| && ps[i].id != [] ensures ps[i].id != p.id && ps[i].apiKey != p.apiKey {
      LivePosition(ps, i);
    }
    CreateOwners(ps, byOwner, p);
    hide OwnersAgree, Live, HasId, HasKey;
    CreateIds(ps, byId, p);
    CreateKeys(ps, byKey, p);
  }

  lemma CreateIds(ps: seq<Project>, byId: map<Bytes, nat>, p: Project)
    requires IdsAgree(ps, byId) && p.id != []
    requires forall i :: 0 <= i < |ps| && ps[i].id != [] ==> ps[i].id != p.id
    ensures IdsAgree(ps + [p], byId[p.id := |ps|])
  {
  }

  lemma CreateKeys(ps: seq<Project>, byKey: map<Bytes, nat>, p: Project)
    requires KeysAgree(ps, byKey) && p.id != [] && p.apiKey != []
    requires forall i :: 0 <= i < |ps| && ps[i].id != [] ==> ps[i].apiKey != p.apiKey
    ensures KeysAgree(ps + [p], byKey[p.apiKey := |ps|])
  {
  }

  lemma CreateOwners(ps: seq<Project>, byOwner: map<Bytes, seq<nat>>, p: Project)
    requires OwnersAgree(ps, byOwner) && p.id != []
    ensures OwnersAgree(ps + [p], byOwner[p.owner := (if p.owner in byOwner then byOwner[p.owner] else []) + [|ps|]])
  {
    forall owner: Bytes ensures Positions(ps + [p], owner) ==
      if p.owner == owner then Positions(ps, owner) + [|ps|] else Positions(ps, owner)
    {
      PositionsAppend(ps, p, owner);
    }
    hide Positions;
  }

  lemma LiveNothing()
    ensures Live([]) == [] && AsMap([]) == map[]
    ensures forall id: Bytes :: Without([], id) == []
  {
  }

  lemma TombstoneStep(live: seq<Project>, p: Project, q: Project, id: Bytes)
    requires id != [] && q == if p.id == id then p.(id := []) else p
    ensures var before := if p.id != [] then live + [p] else live;
            Without(before, id) == if q.id != [] then Without(live, id) + [q] else Without(live, id)
  {
    WithoutAppend(live, p, id);
    hide Without;
  }

  lemma {:induction false} Tombstone(ps: seq<Project>, qs: seq<Project>, i: nat, n: nat)
    requires i < |ps| && n <= |ps| && ps[i].id != [] && qs == ps[i := ps[i].(id := [])]
    requires forall k :: 0 <= k < |ps| && k != i ==> ps[k].id != ps[i].id
    ensures Live(qs[..n]) == Without(Live(ps[..n]), ps[i].id)
    decreases n
  {
    hide Live, Without;
    LiveNothing();
    assert ps[..0] == [] && qs[..0] == [];
    if n > 0 {
      Tombstone(ps, qs, i, n - 1);
      LivePrefix(ps, n);
      LivePrefix(qs, n);
      TombstoneStep(Live(ps[..n - 1]), ps[n - 1], qs[n - 1], ps[i].id);
    }
  }

  lemma WithoutAppend(live: seq<Project>, p: Project, id: Bytes)
    ensures Without(live + [p], id) == if p.id != id then Without(live, id) + [p] else Without(live, id)
  {
    assert (live + [p])[..|live|] == live;
  }

  lemma RemoveAppend(list: seq<nat>, y: nat, x: nat)
    ensures Remove(list + [y], x) == if y != x then Remove(list, x) + [y] else Remove(list, x)
  {
    assert (list + [y])[..|list|] == list;
  }

  lemma {:induction false} TombstonePositions(ps: seq<Project>, qs: seq<Project>, i: nat, n: nat, owner: Bytes)
    requires i < |ps| && n <= |ps| && qs == ps[i := ps[i].(id := [])]
    ensures Positions(qs[..n], owner) == Remove(Positions(ps[..n], owner), i)
    ensures ps[i].owner != owner ==> Positions(qs[..n], owner) == Positions(ps[..n], owner)
    decreases n
  {
    hide Positions, Remove;
    NoPositions(ps, owner);
    NoPositions(qs, owner);
    if n > 0 {
      TombstonePositions(ps, qs, i, n - 1, owner);
      PositionsPrefix(ps, n, owner);
      PositionsPrefix(qs, n, owner);
      RemoveAppend(Positions(ps[..n - 1], owner), n - 1, i);
    }
  }

  lemma DeleteAgrees(ps: seq<Project>, byId: map<Bytes, nat>, byKey: map<Bytes, nat>, byOwner: map<Bytes, seq<nat>>,
                     id: Bytes)
    requires Agree(ps, byId, byKey, byOwner) && id in byId
    ensures var i := byId[id];
            var p := ps[i];
            && Agree(ps[i := p.(id := [])], byId - {id}, byKey - {p.apiKey},
                     byOwner[p.owner := Remove(if p.owner in byOwner then byOwner[p.owner] else [], i)])
            && Live(ps[i := p.(id := [])]) == Without(Live(ps), id)
  {
    var i := byId[id];
    var p := ps[i];
    var qs := ps[i := p.(id := [])];
    Tombstone(ps, qs, i, |ps|);
    assert ps[..|ps|] == ps && qs[..|qs|] == qs;
    DeleteOwners(ps, qs, byOwner, i);
    hide OwnersAgree, Positions, Live, Remove, Without;
    DeleteIds(ps, qs, byId, i);
    DeleteKeys(ps, qs, byKey, i);
  }

  lemma DeleteIds(ps: seq<Project>, qs: seq<Project>, byId: map<Bytes, nat>, i: nat)
    requires IdsAgree(ps, byId) && i < |ps| && ps[i].id != [] && qs == ps[i := ps[i].(id := [])]
    ensures IdsAgree(qs, byId - {ps[i].id})
  {
  }

  lemma DeleteKeys(ps: seq<Project>, qs: seq<Project>, byKey: map<Bytes, nat>, i: nat)
    requires KeysAgree(ps, byKey) && i < |ps| && ps[i].id != [] && qs == ps[i := ps[i].(id := [])]
    ensures KeysAgree(qs, byKey - {ps[i].apiKey})
  {
  }

  lemma DeleteOwners(ps: seq<Project>, qs: seq<Project>, byOwner: map<Bytes, seq<nat>>, i: nat)
    requires OwnersAgree(ps, byOwner) && i < |ps| && qs == ps[i := ps[i].(id := [])]
    ensures var o := ps[i].owner; OwnersAgree(qs, byOwner[o := Remove(if o in byOwner then byOwner[o] else [], i)])
  {
    forall owner: Bytes
      ensures Positions(qs, owner) == Remove(Positions(ps, owner), i)
      ensures ps[i].owner != owner ==> Positions(qs, owner) == Positions(ps, owner)
    {
      TombstonePositions(ps, qs, i, |ps|, owner);
      assert ps[..|ps|] == ps && qs[..|qs|] == qs;
    }
    hide Positions, Remove;
  }

  lemma WithKeyAppend(live: seq<Project>, p: Project, id: Bytes, key: Bytes)
    ensures WithKey(live + [p], id, key) == WithKey(live, id, key) + [if p.id == id then p.(apiKey := key) else p]
  {
  }

  lemma {:induction false} RotateLive(ps: seq<Project>, qs: seq<Project>, i: nat, n: nat, key: Bytes)
    requires i < |ps| && n <= |ps| && ps[i].id != [] && qs == ps[i := ps[i].(apiKey := key)]
    requires forall k :: 0 <= k < |ps| && k != i ==> ps[k].id != ps[i].id
    ensures Live(qs[..n]) == WithKey(Live(ps[..n]), ps[i].id, key)
    decreases n
  {
    hide Live, WithKey;
    NoPositions(ps, []);
    NoPositions(qs, []);
    WithNoKey(ps[i].id, key);
    if n > 0 {
      RotateLive(ps, qs, i, n - 1, key);
      LivePrefix(ps, n);
      LivePrefix(qs, n);
      WithKeyAppend(Live(ps[..n - 1]), ps[n - 1], ps[i].id, key);
    }
  }

  lemma WithNoKey(id: Bytes, key: Bytes)
    ensures WithKey([], id, key) == []
  {
  }

  lemma {:induction false} RotatePositions(ps: seq<Project>, qs: seq<Project>, i: nat, n: nat, key: Bytes, owner: Bytes)
    requires i < |ps| && n <= |ps| && qs == ps[i := ps[i].(apiKey := key)]
    ensures Positions(qs[..n], owner) == Positions(ps[..n], owner)
    decreases n
  {
    hide Positions;
    NoPositions(ps, owner);
    NoPositions(qs, owner);
    if n > 0 {
      RotatePositions(ps, qs, i, n - 1, key, owner);
      PositionsPrefix(ps, n, owner);
      PositionsPrefix(qs, n, owner);
    }
  }

  lemma RotateAgrees(ps: seq<Project>, byId: map<Bytes, nat>, byKey: map<Bytes, nat>, byOwner: map<Bytes, seq<nat>>,
                     id: Bytes, key: Bytes)
    requires Agree(ps, byId, byKey, byOwner) && id in byId && key != [] && !HasKey(Live(ps), key)
    ensures var i := byId[id];
            var qs := ps[i := ps[i].(apiKey := key)];
            Agree(qs, byId, (byKey - {ps[i].apiKey})[key := i], byOwner) && Live(qs) == WithKey(Live(ps), id, key)
  {
    var i := byId[id];
    var qs := ps[i := ps[i].(apiKey := key)];
    assert ps[..|ps|] == ps && qs[..|qs|] == qs;
    RotateLive(ps, qs, i, |ps|, key);
    forall owner: Bytes ensures Positions(qs, owner) == Positions(ps, owner) {
      RotatePositions(ps, qs, i, |ps|, key, owner);
    }
    forall k | 0 <= k < |ps| && ps[k].id != [] ensures ps[k].apiKey != key { LivePosition(ps, k); }
    hide Positions, Live, HasKey, WithKey;
    assert IdsAgree(qs, byId);
    assert KeysAgree(qs, (byKey - {ps[i].apiKey})[key := i]);
  }

  // ----- the indices answer for the live projects -----

  ghost predicate Below(positions: seq<nat>, n: nat) { forall k :: 0 <= k < |positions| ==> positions[k] < n }

  ghost function Picked(ps: seq<Project>, positions: seq<nat>): seq<Project>
    requires Below(positions, |ps|)
  {
    seq(|positions|, k requires 0 <= k < |positions| => ps[positions[k]])
  }

  lemma PickedAppend(ps: seq<Project>, positions: seq<nat>, n: nat)
    requires n < |ps| && Below(positions, |ps|)
    ensures Below(positions + [n], |ps|) && Picked(ps, positions + [n]) == Picked(ps, positions) + [ps[n]]
  {
  }

  lemma {:induction false} PositionsBelow(ps: seq<Project>, n: nat, owner: Bytes)
    requires n <= |ps|
    ensures Below(Positions(ps[..n], owner), |ps|)
    decreases n
  {
    if n > 0 {
      PositionsBelow(ps, n - 1, owner);
      PositionsPrefix(ps, n, owner);
      hide Positions;
    }
  }

  lemma OwnedByAppend(live: seq<Project>, p: Project, owner: Bytes)
    ensures OwnedBy(live + [p], owner) == if p.owner == owner then OwnedBy(live, owner) + [p] else OwnedBy(live, owner)
  {
    assert (live + [p])[..|live|] == live;
  }

  lemma PickNothing(ps: seq<Project>)
    ensures Picked(ps, []) == []
  {
  }

  /** Looking up an owner's positions finds the owner's live projects, in creation order. */
  lemma {:induction false} PositionsPick(ps: seq<Project>, n: nat, owner: Bytes)
    requires n <= |ps|
    ensures Below(Positions(ps[..n], owner), |ps|)
    ensures Picked(ps, Positions(ps[..n], owner)) == OwnedBy(Live(ps[..n]), owner)
    decreases n
  {
    hide Positions, Live, Picked, OwnedBy;
    PositionsBelow(ps, n, owner);
    NoPositions(ps, owner);
    PickNothing(ps);
    if n > 0 {
      PositionsPick(ps, n - 1, owner);
      PositionsPrefix(ps, n, owner);
      LivePrefix(ps, n);
      PickedAppend(ps, Positions(ps[..n - 1], owner), n - 1);
      OwnedByAppend(Live(ps[..n - 1]), ps[n - 1], owner);
    }
  }

  // ----- saving and loading -----

  /** What a restart makes of a file: entries without an id or a key are skipped. */
  function Kept(file: seq<Project>): seq<Project> {
    if file == [] then []
    else
      var front := Kept(file[..|file| - 1]);
      var p := file[|file| - 1];
      if p.id == [] || p.apiKey == [] then front else front + [p]
  }

  /** Saving the live projects and loading them again changes nothing. */
  lemma {:induction false} SavedIsKept(live: seq<Project>)
    requires WellFormed(live)
    ensures Kept(live) == live
    decreases |live|
  {
    hide Kept, WellFormed, Without;
    KeptNothing();
    if live != [] {
      var front, p := live[..|live| - 1], live[|live| - 1];
      assert front + [p] == live;
      NewToWithout(front, p, []);
      SavedIsKept(front);
      KeptAppend(front, p);
    }
  }

  lemma KeptNothing()
    ensures Kept([]) == []
  {
  }

  lemma KeptAppend(file: seq<Project>, p: Project)
    ensures Kept(file + [p]) == if p.id == [] || p.apiKey == [] then Kept(file) else Kept(file) + [p]
  {
    assert (file + [p])[..|file|] == file;
  }

  lemma {:induction false} KeptIsLive(file: seq<Project>)
    ensures Live(Kept(file)) == Kept(file)
    decreases |file|
  {
    if file != [] {
      var front := Kept(file[..|file| - 1]);
      KeptIsLive(file[..|file| - 1]);
      LiveAppend(front, file[|file| - 1]);
    }
  }

  // ----- what is selected, and in which order -----

  /** An owner's projects are those of that owner, in creation order. */
  lemma {:induction false} OwnedInOrder(live: seq<Project>, owner: Bytes) returns (at: seq<nat>)
    ensures Picks(live, OwnedBy(live, owner), at)
    ensures forall i :: 0 <= i < |live| ==> (i in at <==> live[i].owner == owner)
    decreases |live|
  {
    at := [];
    if live != [] {
      var front, p := live[..|live| - 1], live[|live| - 1];
      at := OwnedInOrder(front, owner);
      PicksMore(front, OwnedBy(front, owner), at, p);
      assert live == front + [p];
      if p.owner == owner { at := at + [|front|]; }
    }
  }

  /** The live projects are the positions with an id, in order. */
  lemma {:induction false} LiveInOrder(ps: seq<Project>) returns (at: seq<nat>)
    ensures Picks(ps, Live(ps), at)
    ensures forall i :: 0 <= i < |ps| ==> (i in at <==> ps[i].id != "")
    decreases |ps|
  {
    at := [];
    if ps != [] {
      var front, p := ps[..|ps| - 1], ps[|ps| - 1];
      at := LiveInOrder(front);
      PicksMore(front, Live(front), at, p);
      assert ps == front + [p];
      if p.id != [] { at := at + [|front|]; }
    }
  }

  /** What is kept of a file is what has an id and a key, in order. */
  lemma {:induction false} KeptInOrder(file: seq<Project>) returns (at: seq<nat>)
    ensures Picks(file, Kept(file), at)
    ensures forall i :: 0 <= i < |file| ==> (i in at <==> file[i].id != "" && file[i].apiKey != "")
    decreases |file|
  {
    at := [];
    if file != [] {
      var front, p := file[..|file| - 1], file[|file| - 1];
      at := KeptInOrder(front);
      PicksMore(front, Kept(front), at, p);
      assert file == front + [p];
      if p.id != [] && p.apiKey != [] { at := at + [|front|]; }
    }
  }

  /** A deletion by the owner takes out that project and leaves the others in their order. */
  lemma {:induction false} OthersInOrder(live: seq<Project>, id: Bytes) returns (at: seq<nat>)
    ensures Picks(live, Without(live, id), at)
    ensures forall i :: 0 <= i < |live| ==> (i in at <==> live[i].id != id)
    decreases |live|
  {
    at := [];
    if live != [] {
      var front, p := live[..|live| - 1], live[|live| - 1];
      at := OthersInOrder(front, id);
      PicksMore(front, Without(front, id), at, p);
      assert live == front + [p];
      if p.id != id { at := at + [|front|]; }
    }
  }

  /** Only the live project with that id and that owner may be changed. */
  lemma OwnsIff(live: seq<Project>, id: Bytes, owner: Bytes)
    requires WellFormed(live)
    ensures Owns(live, id, owner) <==> exists p :: p in live && p.id == id && p.owner == owner
  {
    FindIsLookup(live, id);
    AsMapHolds(live, id);
    if p :| p in live && p.id == id && p.owner == owner {
      var i :| 0 <= i < |live| && live[i] == p;
      AsMapAt(live, i);
    }
  }

  /** An operation by anyone else changes nothing; the owner's deletion leaves the others in their
      order, and the owner's rotation changes one field of one project. */
  lemma StepOnOrder(live: seq<Project>, op: Op) returns (at: seq<nat>)
    requires WellFormed(live) && !op.Create?
    ensures var allowed := exists p :: p in live && p.id == op.id && p.owner == op.owner;
            var after := Next(live, op);
            && (!allowed ==> after == live)
            && (allowed && op.Delete? ==>
                  && Picks(live, after, at)
                  && forall i :: 0 <= i < |live| ==> (i in at <==> live[i].id != op.id))
            && (allowed && op.Rotate? ==>
                  && |after| == |live|
                  && forall i :: 0 <= i < |live| ==>
                       && after[i].id == live[i].id && after[i].name == live[i].name
                       && after[i].owner == live[i].owner && after[i].createdAt == live[i].createdAt
                       && after[i].apiKey == if live[i].id == op.id then op.key else live[i].apiKey)
  {
    OwnsIff(live, op.id, op.owner);
    at := OthersInOrder(live, op.id);
    hide WellFormed, Without, Picks;
  }

  // ----- whole runs -----

  datatype Op = Create(project: Project) | Delete(id: Bytes, owner: Bytes) | Rotate(id: Bytes, owner: Bytes, key: Bytes)

  /** The live project with an id. */
  function Find(live: seq<Project>, id: Bytes): Option<Project> {
    if live == [] then None
    else if live[|live| - 1].id == id then Some(live[|live| - 1])
    else Find(live[..|live| - 1], id)
  }

  /** Whether an owner may change a project. */
  predicate Owns(live: seq<Project>, id: Bytes, owner: Bytes) {
    Find(live, id).Some? && Find(live, id).value.owner == owner
  }

  function Next(live: seq<Project>, op: Op): seq<Project> {
    match op
    case Create(p) => if p.name == [] || p.owner == [] then live else live + [p]
    case Delete(id, owner) => if Owns(live, id, owner) then Without(live, id) else live
    case Rotate(id, owner, key) => if Owns(live, id, owner) then WithKey(live, id, key) else live
  }

  function Run(start: seq<Project>, ops: seq<Op>): seq<Project> {
    if ops == [] then start else Next(Run(start, ops[..|ops| - 1]), ops[|ops| - 1])
  }

  /** The random ids and keys of a run are not in use when they are issued. */
  ghost predicate FreshOp(live: seq<Project>, op: Op) {
    match op
    case Create(p) => Fresh(live, p.id, p.apiKey)
    case Delete(_, _) => true
    case Rotate(_, _, key) => key != [] && !HasKey(live, key)
  }

  ghost predicate FreshRun(start: seq<Project>, ops: seq<Op>) {
    forall n :: 0 <= n < |ops| ==> FreshOp(Run(start, ops[..n]), ops[n])
  }

  // ----- what the indices say is what is live -----

  lemma IdResolves(ps: seq<Project>, byId: map<Bytes, nat>, byKey: map<Bytes, nat>, id: Bytes)
    requires IdsAgree(ps, byId) && KeysAgree(ps, byKey)
    ensures id in byId <==> HasId(Live(ps), id)
    ensures id in byId ==> byId[id] < |ps|
    ensures Find(Live(ps), id) == if id in byId then Some(ps[byId[id]]) else None
  {
    hide Live, AsMap, Find;
    var live := Live(ps);
    AgreedIsWellFormed(ps, byId, byKey);
    FindIsLookup(live, id);
    AsMapHolds(live, id);
    if id in byId {
      LivePosition(ps, byId[id]);
      LiveHolds(ps, ps[byId[id]]);
      var k :| 0 <= k < |live| && live[k] == ps[byId[id]];
      AsMapAt(live, k);
    } else if k :| 0 <= k < |live| && live[k].id == id {
      LiveHolds(ps, live[k]);
    }
  }

  lemma KeyResolves(ps: seq<Project>, byKey: map<Bytes, nat>, key: Bytes)
    requires KeysAgree(ps, byKey)
    ensures key in byKey <==> HasKey(Live(ps), key)
    ensures key in byKey ==> byKey[key] < |ps| && ps[byKey[key]] in Live(ps)
  {
    hide Live;
    var live := Live(ps);
    if key in byKey {
      LivePosition(ps, byKey[key]);
      LiveHolds(ps, ps[byKey[key]]);
    } else if k :| 0 <= k < |live| && live[k].apiKey == key {
      LiveHolds(ps, live[k]);
    }
  }

  // ----- a run is a run of a plain map -----

  ghost predicate MapOwns(m: map<Bytes, Project>, id: Bytes, owner: Bytes) { id in m && m[id].owner == owner }

  ghost function MapNext(m: map<Bytes, Project>, op: Op): map<Bytes, Project> {
    match op
    case Create(p) => if p.name == [] || p.owner == [] then m else m[p.id := p]
    case Delete(id, owner) => if MapOwns(m, id, owner) then m - {id} else m
    case Rotate(id, owner, key) => if MapOwns(m, id, owner) then m[id := m[id].(apiKey := key)] else m
  }

  ghost function MapRun(start: map<Bytes, Project>, ops: seq<Op>): map<Bytes, Project> {
    if ops == [] then start else MapNext(MapRun(start, ops[..|ops| - 1]), ops[|ops| - 1])
  }

  lemma {:induction false} FindIsLookup(live: seq<Project>, id: Bytes)
    ensures Find(live, id) == if id in AsMap(live) then Some(AsMap(live)[id]) else None
    decreases |live|
  {
    if live != [] { FindIsLookup(live[..|live| - 1], id); }
  }

  lemma StepOnMap(live: seq<Project>, op: Op)
    requires WellFormed(live) && FreshOp(live, op)
    ensures AsMap(Next(live, op)) == MapNext(AsMap(live), op)
  {
    match op
    case Create(p) => CreateOnMap(live, p);
    case Delete(id, owner) =>
      FindIsLookup(live, id);
      DeleteOnMap(live, id);
    case Rotate(id, owner, key) =>
      FindIsLookup(live, id);
      AsMapHolds(live, id);
      if HasId(live, id) { RotateOnMap(live, id, key); }
  }

  lemma StepKeepsWellFormed(live: seq<Project>, op: Op)
    requires WellFormed(live) && FreshOp(live, op)
    ensures WellFormed(Next(live, op))
  {
    match op
    case Create(p) => CreateWellFormed(live, p);
    case Delete(id, owner) => WithoutWellFormed(live, id);
    case Rotate(id, owner, key) => RotateWellFormed(live, id, key);
  }

  lemma RotateWellFormed(live: seq<Project>, id: Bytes, key: Bytes)
    requires WellFormed(live) && key != [] && !HasKey(live, key)
    ensures WellFormed(WithKey(live, id, key))
  {
  }

  /** The last project's id and key are new to what is left of those before it. */
  lemma NewToWithout(live: seq<Project>, p: Project, id: Bytes)
    requires WellFormed(live + [p])
    ensures WellFormed(live) && Fresh(Without(live, id), p.id, p.apiKey)
  {
    hide Without;
    var all, left := live + [p], Without(live, id);
    assert forall i :: 0 <= i < |live| ==> all[i] == live[i];
    assert all[|live|] == p;
    WithoutHolds(live, id);
    forall i | 0 <= i < |left| ensures left[i].id != p.id && left[i].apiKey != p.apiKey {
      assert left[i] in live;
    }
  }

  lemma {:induction false} WithoutWellFormed(live: seq<Project>, id: Bytes)
    requires WellFormed(live)
    ensures WellFormed(Without(live, id))
    decreases |live|
  {
    hide Without, WellFormed, Fresh;
    NoPositions([], []);
    NothingWellFormed();
    LiveNothing();
    if live != [] {
      var front, p := live[..|live| - 1], live[|live| - 1];
      assert live == front + [p];
      NewToWithout(front, p, id);
      WithoutWellFormed(front, id);
      WithoutAppend(front, p, id);
      if p.id != id { CreateWellFormed(Without(front, id), p); }
    }
  }

  lemma FreshPrefix(start: seq<Project>, ops: seq<Op>)
    requires FreshRun(start, ops) && ops != []
    ensures var n := |ops| - 1; FreshRun(start, ops[..n]) && FreshOp(Run(start, ops[..n]), ops[n])
  {
    hide FreshOp, Run;
    var n := |ops| - 1;
    forall k | 0 <= k < n ensures FreshOp(Run(start, ops[..n][..k]), ops[..n][k]) {
      assert ops[..n][..k] == ops[..k] && ops[..n][k] == ops[k];
    }
  }

  /** From any well-formed start, any run with fresh ids and keys is the run of a plain map, and
      ids and keys stay distinct. */
  lemma {:induction false} RunRefinesMap(start: seq<Project>, ops: seq<Op>)
    requires WellFormed(start) && FreshRun(start, ops)
    ensures WellFormed(Run(start, ops)) && AsMap(Run(start, ops)) == MapRun(AsMap(start), ops)
    decreases |ops|
  {
    if ops != [] {
      hide AsMap, WellFormed, Next, MapNext, FreshOp, FreshRun;
      var n := |ops| - 1;
      FreshPrefix(start, ops);
      RunRefinesMap(start, ops[..n]);
      StepOnMap(Run(start, ops[..n]), ops[n]);
      StepKeepsWellFormed(Run(start, ops[..n]), ops[n]);
    }
  }

  // ----- a key that stops working never works again -----

  /** The key an operation brings in. */
  ghost predicate Issues(op: Op, key: Bytes) {
    match op
    case Create(p) => p.apiKey == key
    case Delete(_, _) => false
    case Rotate(_, _, k) => k == key
  }

  lemma StepKeys(live: seq<Project>, op: Op, key: Bytes)
    requires HasKey(Next(live, op), key) && !Issues(op, key)
    ensures HasKey(live, key)
  {
    var after := Next(live, op);
    var i :| 0 <= i < |after| && after[i].apiKey == key;
    if op.Delete? && Owns(live, op.id, op.owner) {
      WithoutHolds(live, op.id);
      assert after[i] in live;
    } else {
      assert live[i].apiKey == key;
    }
  }

  /** A key that a deletion or a rotation took out of use resolves to nothing for ever after, unless
      the generator issues it again. */
  lemma {:induction false} RetiredKeyStaysRetired(start: seq<Project>, ops: seq<Op>, n: nat, key: Bytes)
    requires n <= |ops| && !HasKey(Run(start, ops[..n]), key)
    requires forall k :: n <= k < |ops| ==> !Issues(ops[k], key)
    ensures !HasKey(Run(start, ops), key)
    decreases |ops|
  {
    if n == |ops| { assert ops[..n] == ops; }
    else {
      assert ops[..|ops| - 1][..n] == ops[..n];
      RetiredKeyStaysRetired(start, ops[..|ops| - 1], n, key);
      if HasKey(Run(start, ops), key) { StepKeys(Run(start, ops[..|ops| - 1]), ops[|ops| - 1], key); }
    }
  }

  /** Deleting a project, or rotating its key to another one, retires the key it had. */
  lemma OldKeyRetired(live: seq<Project>, p: Project, op: Op)
    requires WellFormed(live) && p in live && FreshOp(live, op)
    requires op == Delete(p.id, p.owner) || (op.Rotate? && op.id == p.id && op.owner == p.owner)
    ensures !HasKey(Next(live, op), p.apiKey)
  {
    var i :| 0 <= i < |live| && live[i] == p;
    AsMapAt(live, i);
    FindIsLookup(live, p.id);
    var after := Next(live, op);
    if op.Delete? {
      WithoutHolds(live, p.id);
      forall k | 0 <= k < |after| ensures after[k].apiKey != p.apiKey { assert after[k] in live; }
    } else {
      assert op.key != p.apiKey;
    }
  }
}
