/** The life of an NPC: spawn points with their counters and lists, the AI registry, and the manager that keeps them in step. */
module Spawns {
  import opened Grid
  import opened Integers
  import opened WorldIndex
  import opened Wrappers

  const MAX_UINT32: int := 0xFFFF_FFFF
  const FIRST_OBJECT_ID: uint32 := 100000

  class Npc {
    const body: WorldObject
    const spawn: Spawn

    constructor (body: WorldObject, spawn: Spawn)
      ensures this.body == body && this.spawn == spawn
    {
      this.body := body;
      this.spawn := spawn;
    }
  }

  class Spawn {
    const spawnID: int64
    const x: int32
    const y: int32
    const maximumCount: int32
    var currentCount: int
    var npcList: seq<Npc>

    constructor (spawnID: int64, x: int32, y: int32, maximumCount: int32)
      ensures this.spawnID == spawnID && this.x == x && this.y == y && this.maximumCount == maximumCount
      ensures currentCount == 0 && npcList == []
    {
      this.spawnID := spawnID;
      this.x := x;
      this.y := y;
      this.maximumCount := maximumCount;
      currentCount := 0;
      npcList := [];
    }

    method IncreaseCount()
      modifies `currentCount
      ensures currentCount == old(currentCount) + 1
    {
      currentCount := currentCount + 1;
    }

    method DecreaseCount()
      modifies `currentCount
      ensures currentCount == old(currentCount) - 1
    {
      currentCount := currentCount - 1;
    }

    method AddNpc(npc: Npc)
      modifies `npcList
      ensures npcList == old(npcList) + [npc]
    {
      npcList := npcList + [npc];
    }

    /** Removes the first occurrence, if there is one. */
    method RemoveNpc(npc: Npc)
      modifies `npcList
      ensures npcList == WithoutFirst(old(npcList), npc)
    {
      hide WithoutFirst;
      for i := 0 to |npcList|
        invariant npcList == old(npcList) && npc !in npcList[..i]
      {
        if npcList[i] == npc {
          WithoutFirstAt(npcList, npc, i);
          npcList := npcList[..i] + npcList[i + 1..];
          return;
        }
      }
      assert npcList[..|npcList|] == npcList;
      WithoutAbsent(npcList, npc);
    }
  }

  function WithoutFirst(s: seq<Npc>, npc: Npc): seq<Npc> {
    if |s| == 0 then [] else if s[0] == npc then s[1..] else [s[0]] + WithoutFirst(s[1..], npc)
  }

  lemma {:induction false} WithoutFirstAt(s: seq<Npc>, npc: Npc, i: nat)
    requires i < |s| && s[i] == npc && npc !in s[..i]
    ensures WithoutFirst(s, npc) == s[..i] + s[i + 1..]
  {
    if i > 0 {
      assert s[0] == s[..i][0] && s[1..][..i - 1] == s[..i][1..];
      WithoutFirstAt(s[1..], npc, i - 1);
    }
  }

  lemma {:induction false} WithoutAbsent(s: seq<Npc>, npc: Npc)
    requires npc !in s
    ensures WithoutFirst(s, npc) == s
  {
    if |s| > 0 {
      WithoutAbsent(s[1..], npc);
    }
  }

  lemma WithoutLast(s: seq<Npc>, npc: Npc)
    requires npc !in s
    ensures WithoutFirst(s + [npc], npc) == s
  {
    WithoutFirstAt(s + [npc], npc, |s|);
  }

  /** Taking out an element of a list without repetitions takes out that element and no other. */
  lemma {:induction false} WithoutOne(s: seq<Npc>, npc: Npc)
    requires NoDup(s) && npc in s
    ensures var t := WithoutFirst(s, npc);
            |t| == |s| - 1 && NoDup(t) && npc !in t
    ensures forall n :: n in WithoutFirst(s, npc) ==> n in s
    ensures forall n :: n in s && n != npc ==> n in WithoutFirst(s, npc)
  {
    if s[0] != npc {
      WithoutOne(s[1..], npc);
      var t := WithoutFirst(s[1..], npc);
      assert forall n :: n in s <==> n == s[0] || n in s[1..];
      assert s[0] !in t;
    } else {
      assert forall n :: n in s <==> n == s[0] || n in s[1..];
    }
  }

  /** The most NPCs a spawn point may hold. */
  function Places(s: Spawn): (n: nat)
    ensures n >= s.maximumCount && (n == s.maximumCount || n == 0)
  {
    if s.maximumCount > 0 then s.maximumCount else 0
  }

  /** What loading a spawn point's NPC template yields at each attempt. */
  type Loader = (Spawn, nat) -> bool

  /** Whether an attempt at a spawn point that counts this many succeeds. */
  predicate Succeeds(s: Spawn, count: int, template: bool) {
    count < s.maximumCount && template && InWorld(s.x, s.y)
  }

  /** after is what a spawn point counts once it has been asked as often as it has places, up to the first failure. */
  ghost predicate Filled(s: Spawn, before: int, after: int, load: Loader) {
    && before <= after <= before + Places(s)
    && (forall i :: 0 <= i < after - before ==> Succeeds(s, before + i, load(s, i)))
    && (after < before + Places(s) ==> !Succeeds(s, after, load(s, after - before)))
  }

  /**
   * Every attempt counted found room, its template and a place in the world; and if there were fewer than there are places, the
   * next one would not have.
   */
  lemma FilledIff(s: Spawn, before: int, after: int, load: Loader)
    ensures Filled(s, before, after, load) <==>
            && before <= after
            && (after > before ==> after <= s.maximumCount && after - before <= s.maximumCount && InWorld(s.x, s.y))
            && (forall i :: 0 <= i < after - before ==> load(s, i))
            && (after - before < s.maximumCount ==> !(after < s.maximumCount && load(s, after - before) && InWorld(s.x, s.y)))
  {
    hide InWorld;
    if Filled(s, before, after, load) {
      forall i | 0 <= i < after - before
        ensures before + i < s.maximumCount && load(s, i) && InWorld(s.x, s.y)
      {
        assert Succeeds(s, before + i, load(s, i));
      }
      if after > before {
        assert Succeeds(s, before + (after - before - 1), load(s, after - before - 1));
      }
    } else if before <= after <= before + Places(s) && (after < before + Places(s) ==> !Succeeds(s, after, load(s, after - before))) {
      var i :| 0 <= i < after - before && !Succeeds(s, before + i, load(s, i));
    }
  }

  /**
   * No attempt fails exactly when the spawn point was empty, lies in the world and always finds its template; it ends up full
   * exactly when it lies in the world and finds its template as long as there is room.
   */
  lemma FilledMeans(s: Spawn, before: int, after: int, load: Loader)
    requires Filled(s, before, after, load) && 0 <= before <= Places(s)
    ensures after == before + Places(s) <==>
            Places(s) == 0 || (before == 0 && InWorld(s.x, s.y) && forall i :: 0 <= i < Places(s) ==> load(s, i))
    ensures after == Places(s) <==>
            before == Places(s) || (InWorld(s.x, s.y) && forall i :: 0 <= i < Places(s) - before ==> load(s, i))
  {
    var n := after - before;
    if n > 0 {
      assert Succeeds(s, before + (n - 1), load(s, n - 1));
    }
    assert forall i :: 0 <= i < n ==> Succeeds(s, before + i, load(s, i));
  }

  /** The registry of AI controllers, keyed by object ID, with its cached size. */
  class TickManager {
    var controllers: map<uint32, Npc>
    var controllerCount: int

    constructor ()
      ensures controllers == map[] && controllerCount == 0
    {
      controllers := map[];
      controllerCount := 0;
    }

    method Register(objectID: uint32, controller: Npc)
      modifies this
      ensures controllers == old(controllers)[objectID := controller]
      ensures controllerCount == old(controllerCount) + 1
    {
      controllers := controllers[objectID := controller];
      controllerCount := controllerCount + 1;
    }

    method Unregister(objectID: uint32)
      modifies this
      ensures controllers == old(controllers) - {objectID}
      ensures controllerCount == old(controllerCount) - if objectID in old(controllers) then 1 else 0
    {
      if objectID !in controllers {
        return;
      }
      controllers := controllers - {objectID};
      controllerCount := controllerCount - 1;
    }
  }

  /** What the spawn points record: how many each counts and whom it lists. */
  type Ledger = map<Spawn, (int, seq<Npc>)>

  /** A spawn point that has not been heard of has an empty page. */
  function Met(ledger: Ledger, spawn: Spawn): Ledger {
    if spawn in ledger then ledger else ledger[spawn := (0, [])]
  }

  /** The spawn point of a newborn counts one more and lists it last. */
  function Enrolled(ledger: Ledger, npc: Npc): Ledger
    requires npc.spawn in ledger
  {
    ledger[npc.spawn := (ledger[npc.spawn].0 + 1, ledger[npc.spawn].1 + [npc])]
  }

  /** The spawn point of the departed counts one less and lists it once less. */
  function Struck(ledger: Ledger, npc: Npc): Ledger
    requires npc.spawn in ledger
  {
    ledger[npc.spawn := (ledger[npc.spawn].0 - 1, WithoutFirst(ledger[npc.spawn].1, npc))]
  }

  /** A spawn point with this count and this list has exactly its own live NPCs, once each and not too many. */
  ghost predicate Keeps(s: Spawn, count: int, list: seq<Npc>, live: map<uint32, Npc>) {
    && count == |list|
    && (count <= s.maximumCount || count == 0)
    && NoDup(list)
    && forall n :: n in list ==> n.spawn == s && n.body.objectID in live && live[n.body.objectID] == n
  }

  ghost predicate Balanced(ledger: Ledger, live: map<uint32, Npc>) {
    && (forall s :: s in ledger ==> Keeps(s, ledger[s].0, ledger[s].1, live))
    && forall id :: id in live ==>
         live[id].body.objectID == id && live[id].spawn in ledger && live[id] in ledger[live[id].spawn].1
  }

  /**
   * The AI registry holds exactly the live NPCs; so does the world's global map among the IDs the manager gives out, each NPC
   * at its spawn's place. Lower IDs belong to others.
   */
  ghost predicate Registered(objects: map<uint32, WorldObject>, controllers: map<uint32, Npc>, count: int,
                             live: map<uint32, Npc>, lastID: uint32)
  {
    && controllers == live
    && count == |live|
    && lastID >= FIRST_OBJECT_ID
    && (forall id :: id in objects && id > FIRST_OBJECT_ID ==> id in live)
    && forall id :: id in live ==>
         && FIRST_OBJECT_ID < id && live[id].body.objectID == id <= lastID
         && id in objects && objects[id] == live[id].body
         && live[id].body.x == live[id].spawn.x && live[id].body.y == live[id].spawn.y
  }

  /** What the world holds under IDs the manager does not give out. */
  function Others(objects: map<uint32, WorldObject>): map<uint32, WorldObject> {
    map id | id in objects && id <= FIRST_OBJECT_ID :: objects[id]
  }

  lemma OthersStay(before: map<uint32, WorldObject>, after: map<uint32, WorldObject>, id: uint32)
    requires after - {id} == before - {id}
    ensures id > FIRST_OBJECT_ID ==> Others(after) == Others(before)
    ensures after == before ==> Others(after) == Others(before)
  {
    forall k | k != id
      ensures k in after <==> k in before
      ensures k in after ==> after[k] == before[k]
    {
      assert k in after - {id} <==> k in before - {id};
      assert k in after ==> (after - {id})[k] == (before - {id})[k];
    }
  }

  lemma RegisteredAfterBirth(objects: map<uint32, WorldObject>, controllers: map<uint32, Npc>, count: int,
                             live: map<uint32, Npc>, lastID: uint32, npc: Npc)
    requires Registered(objects, controllers, count, live, lastID) && npc.body.objectID == lastID + 1
    requires npc.body.x == npc.spawn.x && npc.body.y == npc.spawn.y
    ensures var id := npc.body.objectID;
            id !in live && id !in objects
            && Registered(objects[id := npc.body], controllers[id := npc], count + 1, live[id := npc], id)
            && Registered(objects, controllers, count, live, id)
  {
  }

  lemma RegisteredAfterDeath(objects: map<uint32, WorldObject>, controllers: map<uint32, Npc>, count: int,
                             live: map<uint32, Npc>, lastID: uint32, npc: Npc)
    requires Registered(objects, controllers, count, live, lastID)
    requires npc.body.objectID in live
    ensures var id := npc.body.objectID;
            id in controllers && Registered(objects - {id}, controllers - {id}, count - 1, live - {id}, lastID)
  {
    assert live.Keys == (live - {npc.body.objectID}).Keys + {npc.body.objectID};
  }

  lemma BalancedAfterBirth(ledger: Ledger, live: map<uint32, Npc>, npc: Npc)
    requires Balanced(ledger, live) && npc.body.objectID !in live && npc.spawn in ledger
    requires ledger[npc.spawn].0 < npc.spawn.maximumCount
    ensures Balanced(Enrolled(ledger, npc), live[npc.body.objectID := npc])
  {
    var (count, list) := ledger[npc.spawn];
    assert npc !in list;
    var live' := live[npc.body.objectID := npc];
    forall s | s in ledger
      ensures Keeps(s, ledger[s].0, ledger[s].1, live')
    {
      assert Keeps(s, ledger[s].0, ledger[s].1, live);
    }
    assert Keeps(npc.spawn, count + 1, list + [npc], live');
  }

  lemma BalancedAfterDeath(ledger: Ledger, live: map<uint32, Npc>, npc: Npc)
    requires Balanced(ledger, live) && npc.body.objectID in live && live[npc.body.objectID] == npc
    ensures npc.spawn in ledger && npc in ledger[npc.spawn].1
    ensures Balanced(Struck(ledger, npc), live - {npc.body.objectID})
  {
    var (count, list) := ledger[npc.spawn];
    assert Keeps(npc.spawn, count, list, live);
    WithoutOne(list, npc);
    var live' := live - {npc.body.objectID};
    forall s | s in ledger && s != npc.spawn
      ensures Keeps(s, ledger[s].0, ledger[s].1, live')
    {
      assert Keeps(s, ledger[s].0, ledger[s].1, live);
    }
    forall n | n in WithoutFirst(list, npc)
      ensures n.spawn == npc.spawn && n.body.objectID in live' && live'[n.body.objectID] == n
    {
      assert n in list && n != npc;
    }
    assert Keeps(npc.spawn, count - 1, WithoutFirst(list, npc), live');
    forall id | id in live'
      ensures live'[id].spawn in ledger && (live'[id].spawn == npc.spawn ==> live'[id] in WithoutFirst(list, npc))
    {
      var n := live[id];
      assert n.spawn in ledger && n in ledger[n.spawn].1 && Keeps(n.spawn, ledger[n.spawn].0, ledger[n.spawn].1, live);
      assert n != npc;
    }
  }

  lemma BalancedAfterMeeting(ledger: Ledger, live: map<uint32, Npc>, spawn: Spawn)
    requires Balanced(ledger, live)
    ensures Balanced(Met(ledger, spawn), live)
  {
    if spawn !in ledger {
      var ledger' := Met(ledger, spawn);
      forall s | s in ledger'
        ensures Keeps(s, ledger'[s].0, ledger'[s].1, live)
      {
        if s in ledger {
          assert Keeps(s, ledger[s].0, ledger[s].1, live);
        }
      }
    }
  }

  /** Striking an NPC that is not alive leaves its spawn point counting one less than it lists. */
  lemma UnbalancedAfterSecondDeath(ledger: Ledger, before: map<uint32, Npc>, live: map<uint32, Npc>, npc: Npc)
    requires Balanced(ledger, before) && npc.spawn in ledger
    requires !(npc.body.objectID in before && before[npc.body.objectID] == npc)
    ensures !Balanced(Struck(ledger, npc), live)
  {
    var (count, list) := ledger[npc.spawn];
    assert Keeps(npc.spawn, count, list, before);
    WithoutAbsent(list, npc);
    assert !Keeps(npc.spawn, count - 1, list, live);
    assert Struck(ledger, npc)[npc.spawn] == (count - 1, list);
  }

  /** The counter wraps at 32 bits. */
  function NextID(id: uint32): (next: uint32)
    ensures next == (id + 1) % 0x1_0000_0000
  {
    if id == MAX_UINT32 then 0 else id + 1
  }

  /** The last spawn point with an ID is the one that is stored under it. */
  function Stored(m: map<int64, Spawn>, loaded: seq<Spawn>): map<int64, Spawn> {
    if |loaded| == 0 then m
    else
      var last := loaded[|loaded| - 1];
      Stored(m, loaded[..|loaded| - 1])[last.spawnID := last]
  }

  /** After loading, an ID leads to the last spawn point loaded with it, and without one to what it led to before. */
  lemma {:induction false} StoredMeans(m: map<int64, Spawn>, loaded: seq<Spawn>)
    ensures forall i :: 0 <= i < |loaded| && (forall j :: i < j < |loaded| ==> loaded[j].spawnID != loaded[i].spawnID) ==>
              loaded[i].spawnID in Stored(m, loaded) && Stored(m, loaded)[loaded[i].spawnID] == loaded[i]
    ensures forall id :: (forall s :: s in loaded ==> s.spawnID != id) ==>
              (id in Stored(m, loaded) <==> id in m) && (id in m ==> Stored(m, loaded)[id] == m[id])
    ensures forall s :: s in loaded ==> s.spawnID in Stored(m, loaded)
  {
    if |loaded| > 0 {
      var init, last := loaded[..|loaded| - 1], loaded[|loaded| - 1];
      StoredMeans(m, init);
      assert last in loaded;
      forall i | 0 <= i < |init| && forall j :: i < j < |loaded| ==> loaded[j].spawnID != loaded[i].spawnID
        ensures forall j :: i < j < |init| ==> init[j].spawnID != init[i].spawnID
        ensures init[i].spawnID != last.spawnID
      {
        assert forall j :: i < j < |init| ==> init[j] == loaded[j];
      }
    }
  }

  /** A sweep that has visited these IDs: they count what they were filled to, and short are those that are not full. */
  ghost predicate Sweep(m: map<int64, Spawn>, visited: seq<int64>, before: map<int64, int>, now: map<int64, int>,
                        short: set<int64>, load: Loader)
  {
    && before.Keys == now.Keys == m.Keys
    && (forall id :: id in short ==> id in visited)
    && forall id :: id in m ==>
         if id in visited then
           Filled(m[id], before[id], now[id], load) && (id in short <==> now[id] < before[id] + Places(m[id]))
         else now[id] == before[id]
  }

  lemma SweepStep(m: map<int64, Spawn>, visited: seq<int64>, before: map<int64, int>, now: map<int64, int>,
                  short: set<int64>, load: Loader, id: int64)
    requires Sweep(m, visited, before, now, short, load) && id in m && id !in visited
    ensures id in now
    ensures forall c: int {:trigger now[id := c]} :: Filled(m[id], now[id], c, load) ==>
              Sweep(m, visited + [id], before, now[id := c],
                    if c < now[id] + Places(m[id]) then short + {id} else short, load)
  {
    hide Filled, Places;
  }

  lemma SweepEnds(m: map<int64, Spawn>, visited: seq<int64>, before: map<int64, int>, now: map<int64, int>,
                  short: set<int64>, load: Loader)
    requires Sweep(m, visited, before, now, short, load) && Elems(visited) == m.Keys
    ensures before.Keys == now.Keys == m.Keys
    ensures forall id :: id in m ==> Filled(m[id], before[id], now[id], load)
    ensures short != {} <==> exists id :: id in m && now[id] < before[id] + Places(m[id])
  {
    hide Filled, Places;
    forall id | id in m
      ensures id in visited
    {
      assert id in Elems(visited);
    }
    if id :| id in short {
      assert id in visited;
      assert id in Elems(visited);
    }
  }

  class SpawnManager {
    var spawns: map<int64, Spawn>
    const world: World
    const aiManager: TickManager
    var objectIDCounter: uint32

    /** The NPCs that have been spawned and not despawned, by object ID. */
    ghost var live: map<uint32, Npc>

    /** Every spawn point the manager has dealt with: those it has loaded and any others it was asked to spawn from. */
    ghost var points: set<Spawn>

    ghost function Books(): Ledger
      reads `points, points`currentCount, points`npcList
    {
      map s | s in points :: (s.currentCount, s.npcList)
    }

    lemma Entry(spawn: Spawn)
      ensures spawn in Books() <==> spawn in points
      ensures spawn in points ==> Books()[spawn] == (spawn.currentCount, spawn.npcList)
    {
    }

    /** A spawn point the manager knows, or one that nobody has spawned from. */
    ghost predicate Usable(spawn: Spawn)
      reads `points, spawn`currentCount, spawn`npcList
    {
      spawn in points || (spawn.currentCount == 0 && spawn.npcList == [])
    }

    ghost predicate IsLive(npc: Npc)
      reads `live
    {
      npc.body.objectID in live && live[npc.body.objectID] == npc
    }

    /** Spawn points are stored under their own IDs. */
    ghost predicate Named()
      reads `spawns, `points
    {
      forall id :: id in spawns ==> spawns[id].spawnID == id && spawns[id] in points
    }

    ghost predicate RegistriesAgree()
      reads `live, `objectIDCounter, world`objects, aiManager
    {
      Registered(world.objects, aiManager.controllers, aiManager.controllerCount, live, objectIDCounter)
    }

    ghost predicate Valid()
      reads `live, `objectIDCounter, `spawns, `points, aiManager, points`currentCount, points`npcList
      reads world`regions, world`objects, world.AllRegions()`visibleObjects, world.AllRegions()`surroundingRegions
    {
      world.Valid() && Named() && Balanced(Books(), live) && RegistriesAgree()
    }

    constructor (world: World, aiManager: TickManager)
      requires world.Valid() && forall id :: id in world.objects ==> id <= FIRST_OBJECT_ID
      requires aiManager.controllers == map[] && aiManager.controllerCount == 0
      ensures Valid() && this.world == world && this.aiManager == aiManager
      ensures spawns == map[] && live == map[] && points == {} && objectIDCounter == 100000
    {
      this.world := world;
      this.aiManager := aiManager;
      spawns := map[];
      objectIDCounter := FIRST_OBJECT_ID;
      live := map[];
      points := {};
    }

    /** The manager hears of a spawn point. */
    ghost method Meet(spawn: Spawn)
      requires Valid() && Usable(spawn)
      modifies `points
      ensures Valid() && points == old(points) + {spawn}
      ensures Books() == Met(old(Books()), spawn)
    {
      hide World.Linked, World.Coupled, World.AllRegions, Balanced, Registered;
      BalancedAfterMeeting(Books(), live, spawn);
      points := points + {spawn};
      assert Books() == Met(old(Books()), spawn);
    }

    /**
     * template is what loading the NPC template yields. A failure leaves everything but the counter as it was; a success adds
     * exactly one NPC, in its spawn, in the world at the spawn's place, and in the AI registry. All stays in agreement exactly
     * until the counter wraps: after that NPCs are given IDs that are not theirs.
     */
    method DoSpawn(spawn: Spawn, template: bool) returns (r: Option<Npc>)
      requires Valid() && Usable(spawn)
      modifies `objectIDCounter, `live, `points, spawn`currentCount, spawn`npcList
      modifies aiManager, world`objects, world.AllRegions()`visibleObjects
      ensures points == old(points) + {spawn}
      ensures objectIDCounter ==
              if old(spawn.currentCount) < spawn.maximumCount && template then (old(objectIDCounter) + 1) % 0x1_0000_0000
              else old(objectIDCounter)
      ensures Valid() <==> objectIDCounter >= old(objectIDCounter)
      ensures r.Some? <==> old(spawn.currentCount) < spawn.maximumCount && template && InWorld(spawn.x, spawn.y)
      ensures spawn.currentCount == old(spawn.currentCount) + if r.Some? then 1 else 0
      ensures spawn.npcList == old(spawn.npcList) + if r.Some? then [r.value] else []
      ensures aiManager.controllers ==
              if r.Some? then old(aiManager.controllers)[objectIDCounter := r.value] else old(aiManager.controllers)
      ensures aiManager.controllerCount == old(aiManager.controllerCount) + if r.Some? then 1 else 0
      ensures r.None? ==>
                live == old(live) && world.objects == old(world.objects) && Books() == Met(old(Books()), spawn)
      ensures r.Some? ==>
                && fresh(r.value) && r.value.spawn == spawn && r.value.body.objectID == objectIDCounter
                && r.value.body.x == spawn.x && r.value.body.y == spawn.y
                && live == old(live)[objectIDCounter := r.value]
                && world.objects == old(world.objects)[objectIDCounter := r.value.body]
                && spawn in Met(old(Books()), spawn)
                && Books() == Enrolled(Met(old(Books()), spawn), r.value)
    {
      hide World.Linked, World.Coupled, World.AllRegions, Balanced, Books, Registered, Enrolled, Met;
      ghost var entry, ledger := (spawn.currentCount, spawn.npcList), Books();
      Entry(spawn);
      Meet(spawn);
      Entry(spawn);
      r := None;
      var full := spawn.currentCount >= spawn.maximumCount;
      if !full && template {
        ghost var books, before, lastID := Books(), live, objectIDCounter;
        ghost var objects, controllers, count := world.objects, aiManager.controllers, aiManager.controllerCount;
        FreshID();
        var npc, ok := Place(spawn);
        if lastID < MAX_UINT32 {
          RegisteredNow(objects, controllers, count, before, lastID, npc, ok);
          BalancedNow(books, before, npc, ok);
        } else {
          WrappedDisagrees();
        }
        if ok {
          r := Some(npc);
        }
      }
      PageAfter(ledger, spawn, entry.0, entry.1, r);
    }

    /**
     * The inner loop of SpawnAll for one spawn point: as many attempts as it has places, given up at the first failure. The
     * template is loaded anew each time.
     */
    method FillSpawn(spawn: Spawn, load: Loader) returns (failed: bool)
      requires Valid() && Usable(spawn) && objectIDCounter + Places(spawn) <= MAX_UINT32
      modifies `objectIDCounter, `live, `points, spawn`currentCount, spawn`npcList
      modifies aiManager, world`objects, world.AllRegions()`visibleObjects
      ensures Valid() && points == if Places(spawn) > 0 then old(points) + {spawn} else old(points)
      ensures Filled(spawn, old(spawn.currentCount), spawn.currentCount, load)
      ensures failed <==> spawn.currentCount < old(spawn.currentCount) + Places(spawn)
      ensures objectIDCounter <= old(objectIDCounter) + Places(spawn)
      ensures Others(world.objects) == old(Others(world.objects))
    {
      hide World.Linked, World.Coupled, World.AllRegions, Registered, Balanced, Books, Enrolled, Met, Others;
      failed := false;
      var spawned: nat := 0;
      while spawned < spawn.maximumCount
        invariant Valid() && Usable(spawn)
        invariant spawned <= Places(spawn)
        invariant points == if spawned > 0 then old(points) + {spawn} else old(points)
        invariant spawn.currentCount == old(spawn.currentCount) + spawned
        invariant objectIDCounter <= old(objectIDCounter) + spawned
        invariant Others(world.objects) == old(Others(world.objects))
        invariant forall i :: 0 <= i < spawned ==> Succeeds(spawn, old(spawn.currentCount) + i, load(spawn, i))
        decreases Places(spawn) - spawned
      {
        var ok := Attempt(spawn, load(spawn, spawned));
        if !ok {
          failed := true;
          return;
        }
        spawned := spawned + 1;
      }
    }

    method Attempt(spawn: Spawn, template: bool) returns (ok: bool)
      requires Valid() && Usable(spawn) && objectIDCounter < MAX_UINT32
      modifies `objectIDCounter, `live, `points, spawn`currentCount, spawn`npcList
      modifies aiManager, world`objects, world.AllRegions()`visibleObjects
      ensures Valid() && points == old(points) + {spawn}
      ensures ok <==> Succeeds(spawn, old(spawn.currentCount), template)
      ensures spawn.currentCount == old(spawn.currentCount) + if ok then 1 else 0
      ensures objectIDCounter <= old(objectIDCounter) + 1
      ensures Others(world.objects) == old(Others(world.objects))
    {
      hide World.Linked, World.Coupled, World.AllRegions, Registered, Balanced, Books, Enrolled, Met, Others;
      ghost var objects := world.objects;
      FreshID();
      var npc := DoSpawn(spawn, template);
      OthersStay(objects, world.objects, objectIDCounter);
      ok := npc.Some?;
    }

    /** What a birth, or a failure, does to the spawn point. */
    lemma PageAfter(books: Ledger, spawn: Spawn, count: int, list: seq<Npc>, npc: Option<Npc>)
      requires spawn in points && (if spawn in books then books[spawn] == (count, list) else count == 0 && list == [])
      requires npc.Some? ==> npc.value.spawn == spawn
      requires Books() == if npc.Some? then Enrolled(Met(books, spawn), npc.value) else Met(books, spawn)
      ensures spawn.currentCount == count + if npc.Some? then 1 else 0
      ensures spawn.npcList == list + if npc.Some? then [npc.value] else []
    {
      Entry(spawn);
    }

    /** What a death does to it. */
    lemma PageStruck(books: Ledger, npc: Npc)
      requires npc.spawn in points && npc.spawn in books && Books() == Struck(books, npc)
      ensures npc.spawn.currentCount == books[npc.spawn].0 - 1
      ensures npc.spawn.npcList == WithoutFirst(books[npc.spawn].1, npc)
    {
      Entry(npc.spawn);
    }

    /** What the loaded spawn points count, by ID. */
    ghost function Counts(): map<int64, int>
      reads `spawns, spawns.Values`currentCount
    {
      map id | id in spawns :: spawns[id].currentCount
    }

    method Visit(id: int64, spawn: Spawn, load: Loader) returns (failed: bool)
      requires Valid() && id in spawns && spawns[id] == spawn && objectIDCounter + Places(spawn) <= MAX_UINT32
      modifies `objectIDCounter, `live, `points, spawn`currentCount, spawn`npcList
      modifies aiManager, world`objects, world.AllRegions()`visibleObjects
      ensures Valid() && points == old(points)
      ensures objectIDCounter <= old(objectIDCounter) + Places(spawn)
      ensures Counts() == old(Counts())[id := spawn.currentCount]
      ensures Filled(spawn, old(Counts())[id], Counts()[id], load)
      ensures failed <==> Counts()[id] < old(Counts())[id] + Places(spawn)
      ensures Others(world.objects) == old(Others(world.objects))
    {
      hide World.Linked, World.Coupled, World.AllRegions, Registered, Balanced, Books, Filled, Places, Others;
      failed := FillSpawn(spawn, load);
    }

    /**
     * Every spawn point is asked as often as it has places, up to its first failure, and one failure is reported for all.
     * order is the order in which the spawn points happen to be visited.
     */
    method SpawnAll(order: seq<int64>, load: Loader) returns (failed: bool)
      requires Valid() && NoDup(order) && Elems(order) == spawns.Keys
      requires objectIDCounter + Demand(order) <= MAX_UINT32
      modifies `objectIDCounter, `live, `points, spawns.Values`currentCount, spawns.Values`npcList
      modifies aiManager, world`objects, world.AllRegions()`visibleObjects
      ensures Valid() && points == old(points)
      ensures forall id :: id in spawns ==> Filled(spawns[id], old(Counts())[id], Counts()[id], load)
      ensures failed <==> exists id :: id in spawns && Counts()[id] < old(Counts())[id] + Places(spawns[id])
      ensures Others(world.objects) == old(Others(world.objects))
    {
      hide World.Linked, World.Coupled, World.AllRegions, Registered, Balanced, Books, NoDup, Demand, Filled, Places, Counts, Sweep,
           Others;
      failed := false;
      ghost var before := Counts();
      ghost var short: set<int64> := {};
      assert order[0..] == order;
      SweepStarts(order, load);
      for i := 0 to |order|
        invariant Valid() && points == old(points) && objectIDCounter + Demand(order[i..]) <= MAX_UINT32
        invariant Sweep(spawns, order[..i], before, Counts(), short, load)
        invariant failed <==> short != {}
        invariant Others(world.objects) == old(Others(world.objects))
      {
        Apart(order, i);
        DemandStep(order, i);
        ghost var counts, id := Counts(), order[i];
        SweepStep(spawns, order[..i], before, counts, short, load, id);
        assert order[..i + 1] == order[..i] + [id];
        var gaveUp := Visit(order[i], spawns[order[i]], load);
        if gaveUp {
          failed := true;
          short := short + {id};
        }
      }
      assert order[..|order|] == order;
      SweepEnds(spawns, order, before, Counts(), short, load);
    }

    lemma SweepStarts(order: seq<int64>, load: Loader)
      requires Elems(order) == spawns.Keys
      ensures Sweep(spawns, order[..0], Counts(), Counts(), {}, load)
    {
    }

    lemma DemandStep(order: seq<int64>, i: nat)
      requires Elems(order) <= spawns.Keys && i < |order| && order[i] in spawns
      ensures forall k :: 0 <= k <= |order| ==> Elems(order[k..]) <= spawns.Keys
      ensures Demand(order[i..]) == Places(spawns[order[i]]) + Demand(order[i + 1..])
    {
      forall k, id | 0 <= k <= |order| && id in order[k..]
        ensures id in spawns
      {
        assert id in Elems(order);
      }
      assert order[i..][1..] == order[i + 1..];
    }

    lemma Apart(order: seq<int64>, i: nat)
      requires NoDup(order) && Elems(order) <= spawns.Keys && i < |order|
      ensures order[i] in spawns && order[i] !in order[..i]
    {
      assert order[i] in Elems(order);
    }

    /** The most NPCs the spawn points of these IDs can ask for. */
    function Demand(ids: seq<int64>): nat
      requires Elems(ids) <= spawns.Keys
      reads `spawns
    {
      if |ids| == 0 then 0 else
        assert ids[0] in Elems(ids);
        assert forall id :: id in ids[1..] ==> id in Elems(ids);
        Places(spawns[ids[0]]) + Demand(ids[1..])
    }

    /** The spawn points the database yields. One that is replaced is no longer found, but keeps its NPCs. */
    method LoadSpawns(loaded: seq<Spawn>)
      requires Valid() && forall s :: s in loaded ==> Usable(s)
      modifies `spawns, `points
      ensures Valid() && points == old(points) + Elems(loaded)
      ensures spawns == Stored(old(spawns), loaded)
      ensures forall i :: 0 <= i < |loaded| && (forall j :: i < j < |loaded| ==> loaded[j].spawnID != loaded[i].spawnID) ==>
                loaded[i].spawnID in spawns && spawns[loaded[i].spawnID] == loaded[i]
      ensures forall id :: (forall s :: s in loaded ==> s.spawnID != id) ==>
                (id in spawns <==> id in old(spawns)) && (id in spawns ==> spawns[id] == old(spawns)[id])
    {
      hide World.Linked, World.Coupled, World.AllRegions, Registered, Balanced, Books, Met;
      for i := 0 to |loaded|
        invariant Valid() && points == old(points) + Elems(loaded[..i])
        invariant spawns == Stored(old(spawns), loaded[..i])
      {
        assert loaded[..i + 1] == loaded[..i] + [loaded[i]];
        assert loaded[i] in loaded;
        Meet(loaded[i]);
        StoreSpawn(loaded[i]);
      }
      assert loaded[..|loaded|] == loaded;
      StoredMeans(old(spawns), loaded);
    }

    method StoreSpawn(spawn: Spawn)
      requires Valid() && spawn in points
      modifies `spawns
      ensures Valid() && spawns == old(spawns)[spawn.spawnID := spawn]
    {
      hide World.Linked, World.Coupled, World.AllRegions, Registered, Balanced, Books;
      spawns := spawns[spawn.spawnID := spawn];
    }

    /** The registries after a birth, or after one that was rolled back. */
    lemma RegisteredNow(objects: map<uint32, WorldObject>, controllers: map<uint32, Npc>, count: int,
                        before: map<uint32, Npc>, lastID: uint32, npc: Npc, ok: bool)
      requires Registered(objects, controllers, count, before, lastID)
      requires npc.body.objectID == objectIDCounter == lastID + 1
      requires npc.body.x == npc.spawn.x && npc.body.y == npc.spawn.y
      requires live == if ok then before[npc.body.objectID := npc] else before
      requires world.objects == if ok then objects[npc.body.objectID := npc.body] else objects
      requires aiManager.controllers == if ok then controllers[npc.body.objectID := npc] else controllers
      requires aiManager.controllerCount == count + if ok then 1 else 0
      ensures RegistriesAgree() && npc.body.objectID !in before
    {
      RegisteredAfterBirth(objects, controllers, count, before, lastID, npc);
    }

    lemma WrappedDisagrees()
      requires objectIDCounter < FIRST_OBJECT_ID
      ensures !RegistriesAgree()
    {
    }

    lemma BalancedNow(books: Ledger, before: map<uint32, Npc>, npc: Npc, ok: bool)
      requires Balanced(books, before) && npc.body.objectID !in before && npc.spawn in books
      requires books[npc.spawn].0 < npc.spawn.maximumCount
      requires Books() == if ok then Enrolled(books, npc) else books
      requires live == if ok then before[npc.body.objectID := npc] else before
      ensures Balanced(Books(), live)
    {
      BalancedAfterBirth(books, before, npc);
    }

    lemma AgreeAfterDeath(books: Ledger, objects: map<uint32, WorldObject>, controllers: map<uint32, Npc>, count: int,
                          before: map<uint32, Npc>, npc: Npc)
      requires Balanced(books, before) && Registered(objects, controllers, count, before, objectIDCounter)
      requires npc.spawn in books && Books() == Struck(books, npc)
      requires world.objects == objects - {npc.body.objectID}
      requires aiManager.controllers == controllers - {npc.body.objectID}
      requires aiManager.controllerCount == count - if npc.body.objectID in controllers then 1 else 0
      requires var alive := npc.body.objectID in before && before[npc.body.objectID] == npc;
               live == if alive then before - {npc.body.objectID} else before
      ensures npc.body.objectID in before && before[npc.body.objectID] == npc ==> Balanced(Books(), live) && RegistriesAgree()
      ensures !(npc.body.objectID in before && before[npc.body.objectID] == npc) ==> !Balanced(Books(), live)
    {
      if npc.body.objectID in before && before[npc.body.objectID] == npc {
        BalancedAfterDeath(books, before, npc);
        RegisteredAfterDeath(objects, controllers, count, before, objectIDCounter, npc);
      } else {
        UnbalancedAfterSecondDeath(books, before, live, npc);
      }
    }

    lemma FreshID()
      requires RegistriesAgree()
      ensures objectIDCounter < MAX_UINT32 ==> objectIDCounter + 1 !in world.objects
      ensures objectIDCounter >= FIRST_OBJECT_ID
    {
    }

    /** The steps of a birth, with the rollback when the world refuses the NPC. */
    method Place(spawn: Spawn) returns (npc: Npc, ok: bool)
      requires world.Valid() && spawn in points
      modifies `objectIDCounter, `live, spawn`currentCount, spawn`npcList
      modifies aiManager, world`objects, world.AllRegions()`visibleObjects
      ensures NextID(old(objectIDCounter)) !in old(world.objects) ==> world.Valid()
      ensures fresh(npc) && npc.spawn == spawn && npc.body.x == spawn.x && npc.body.y == spawn.y
      ensures npc.body.objectID == objectIDCounter == NextID(old(objectIDCounter))
      ensures ok <==> InWorld(spawn.x, spawn.y)
      ensures spawn in old(Books())
      ensures Books() == if ok then Enrolled(old(Books()), npc) else old(Books())
      ensures live == if ok then old(live)[npc.body.objectID := npc] else old(live)
      ensures world.objects == if ok then old(world.objects)[npc.body.objectID := npc.body] else old(world.objects)
      ensures aiManager.controllers ==
              if ok then old(aiManager.controllers)[npc.body.objectID := npc] else old(aiManager.controllers)
      ensures aiManager.controllerCount == old(aiManager.controllerCount) + if ok then 1 else 0
    {
      hide World.Linked, World.Coupled, World.AllRegions, Books, Enrolled;
      ghost var books := Books();
      npc := Admit(spawn);
      ok := EnterOrWithdraw(npc, books);
    }

    /** A new NPC, counted and listed by its spawn point. */
    method Admit(spawn: Spawn) returns (npc: Npc)
      requires world.Valid() && spawn in points
      modifies `objectIDCounter, spawn`currentCount, spawn`npcList
      ensures objectIDCounter == NextID(old(objectIDCounter))
      ensures fresh(npc) && npc.spawn == spawn && npc.body.objectID == objectIDCounter
      ensures npc.body.x == spawn.x && npc.body.y == spawn.y
      ensures spawn in old(Books())
      ensures npc !in old(Books())[spawn].1 && Books() == Enrolled(old(Books()), npc)
      ensures world.Valid()
    {
      npc := CreateNpc(spawn);
      Entry(spawn);
      Enlist(spawn, npc);
    }

    method EnterOrWithdraw(npc: Npc, ghost books: Ledger) returns (ok: bool)
      requires world.Valid()
      requires npc.spawn in points && npc.spawn in books && npc !in books[npc.spawn].1
      requires Books() == Enrolled(books, npc)
      modifies `live, npc.spawn`currentCount, npc.spawn`npcList
      modifies aiManager, world`objects, world.AllRegions()`visibleObjects
      ensures !ok || npc.body.objectID !in old(world.objects) ==> world.Valid()
      ensures Books() == if ok then old(Books()) else books
      ensures ok <==> InWorld(npc.body.x, npc.body.y)
      ensures live == if ok then old(live)[npc.body.objectID := npc] else old(live)
      ensures !ok ==> world.objects == old(world.objects) && aiManager.controllers == old(aiManager.controllers)
                      && aiManager.controllerCount == old(aiManager.controllerCount)
      ensures ok ==> && world.objects == old(world.objects)[npc.body.objectID := npc.body]
                     && aiManager.controllers == old(aiManager.controllers)[npc.body.objectID := npc]
                     && aiManager.controllerCount == old(aiManager.controllerCount) + 1
    {
      hide World.Linked, World.Coupled, World.AllRegions, Books, Enrolled;
      ok := Enter(npc);
      if !ok {
        Withdraw(npc.spawn, npc, books);
      }
    }

    method CreateNpc(spawn: Spawn) returns (npc: Npc)
      requires world.Valid()
      modifies `objectIDCounter
      ensures objectIDCounter == NextID(old(objectIDCounter))
      ensures fresh(npc) && npc.spawn == spawn && npc.body.objectID == objectIDCounter
      ensures npc.body.x == spawn.x && npc.body.y == spawn.y
      ensures npc !in spawn.npcList
      ensures world.Valid() && Books() == old(Books())
    {
      objectIDCounter := NextID(objectIDCounter);
      var objectID := objectIDCounter;
      var body := new WorldObject(objectID, spawn.x, spawn.y);
      npc := new Npc(body, spawn);
    }

    /** The spawn point's part of a birth. */
    method Enlist(spawn: Spawn, npc: Npc)
      requires world.Valid() && spawn in points && npc.spawn == spawn
      modifies spawn`currentCount, spawn`npcList
      ensures spawn in old(Books())
      ensures Books() == Enrolled(old(Books()), npc)
      ensures world.Valid()
    {
      spawn.IncreaseCount();
      spawn.AddNpc(npc);
    }

    /** The rollback of Enlist. */
    method Withdraw(spawn: Spawn, npc: Npc, ghost books: Ledger)
      requires world.Valid() && spawn in points && spawn in books && npc !in books[spawn].1
      requires npc.spawn == spawn && Books() == Enrolled(books, npc)
      modifies spawn`currentCount, spawn`npcList
      ensures Books() == books
      ensures world.Valid()
    {
      assert Books()[spawn] == (spawn.currentCount, spawn.npcList);
      WithoutLast(books[spawn].1, npc);
      spawn.DecreaseCount();
      spawn.RemoveNpc(npc);
    }

    /** Into the world and, if it lets the NPC in, into the AI registry. */
    method Enter(npc: Npc) returns (ok: bool)
      requires world.Valid()
      modifies `live, aiManager, world`objects, world.AllRegions()`visibleObjects
      ensures !ok || npc.body.objectID !in old(world.objects) ==> world.Valid()
      ensures Books() == old(Books())
      ensures ok <==> InWorld(npc.body.x, npc.body.y)
      ensures live == if ok then old(live)[npc.body.objectID := npc] else old(live)
      ensures !ok ==> world.objects == old(world.objects) && aiManager.controllers == old(aiManager.controllers)
                      && aiManager.controllerCount == old(aiManager.controllerCount)
      ensures ok ==> && world.objects == old(world.objects)[npc.body.objectID := npc.body]
                     && aiManager.controllers == old(aiManager.controllers)[npc.body.objectID := npc]
                     && aiManager.controllerCount == old(aiManager.controllerCount) + 1
    {
      hide World.Linked, World.Coupled, World.AllRegions, Books;
      ok := world.AddObject(npc.body);
      if !ok {
        return;
      }
      Adopt(npc);
    }

    method Adopt(npc: Npc)
      modifies `live, aiManager
      ensures old(world.Valid()) ==> world.Valid()
      ensures Books() == old(Books())
      ensures live == old(live)[npc.body.objectID := npc]
      ensures aiManager.controllers == old(aiManager.controllers)[npc.body.objectID := npc]
      ensures aiManager.controllerCount == old(aiManager.controllerCount) + 1
    {
      aiManager.Register(npc.body.objectID, npc);
      live := live[npc.body.objectID := npc];
    }

    /**
     * Takes an NPC out of everything it is in. All stays in agreement exactly when the NPC was alive: despawned again, it is
     * counted out a second time.
     */
    method DespawnNpc(npc: Npc)
      requires Valid() && Usable(npc.spawn)
      modifies `live, `points, npc.spawn`currentCount, npc.spawn`npcList
      modifies aiManager, world`objects, world.AllRegions()`visibleObjects
      ensures Valid() <==> old(IsLive(npc))
      ensures live == if old(IsLive(npc)) then old(live) - {npc.body.objectID} else old(live)
      ensures world.objects == old(world.objects) - {npc.body.objectID}
      ensures aiManager.controllers == old(aiManager.controllers) - {npc.body.objectID}
      ensures points == old(points) + {npc.spawn} && objectIDCounter == old(objectIDCounter)
      ensures npc.spawn.currentCount == old(npc.spawn.currentCount) - 1
      ensures npc.spawn.npcList == WithoutFirst(old(npc.spawn.npcList), npc)
      ensures aiManager.controllerCount ==
              old(aiManager.controllerCount) - if npc.body.objectID in old(aiManager.controllers) then 1 else 0
      ensures npc.spawn in Met(old(Books()), npc.spawn)
      ensures Books() == Struck(Met(old(Books()), npc.spawn), npc)
    {
      hide World.Linked, World.Coupled, World.AllRegions, Balanced, Books, Registered, Struck, Met;
      Meet(npc.spawn);
      ghost var books, before := Books(), live;
      ghost var objects, controllers, count := world.objects, aiManager.controllers, aiManager.controllerCount;
      Entry(npc.spawn);
      Unplace(npc);
      PageStruck(books, npc);
      AgreeAfterDeath(books, objects, controllers, count, before, npc);
    }

    method Unplace(npc: Npc)
      requires world.Valid() && npc.spawn in points
      modifies `live, npc.spawn`currentCount, npc.spawn`npcList, aiManager, world`objects, world.AllRegions()`visibleObjects
      ensures world.Valid()
      ensures live == if old(IsLive(npc)) then old(live) - {npc.body.objectID} else old(live)
      ensures world.objects == old(world.objects) - {npc.body.objectID}
      ensures aiManager.controllers == old(aiManager.controllers) - {npc.body.objectID}
      ensures aiManager.controllerCount ==
              old(aiManager.controllerCount) - if npc.body.objectID in old(aiManager.controllers) then 1 else 0
      ensures npc.spawn in old(Books())
      ensures Books() == Struck(old(Books()), npc)
    {
      hide World.Linked, World.Coupled, World.AllRegions, Books, Struck;
      Leave(npc);
      Discharge(npc);
    }

    method Leave(npc: Npc)
      requires world.Valid()
      modifies `live, aiManager, world`objects, world.AllRegions()`visibleObjects
      ensures world.Valid() && Books() == old(Books())
      ensures live == if old(IsLive(npc)) then old(live) - {npc.body.objectID} else old(live)
      ensures world.objects == old(world.objects) - {npc.body.objectID}
      ensures aiManager.controllers == old(aiManager.controllers) - {npc.body.objectID}
      ensures aiManager.controllerCount ==
              old(aiManager.controllerCount) - if npc.body.objectID in old(aiManager.controllers) then 1 else 0
    {
      hide World.Linked, World.Coupled, World.AllRegions, Books;
      Orphan(npc);
      world.RemoveObject(npc.body.objectID);
    }

    method Orphan(npc: Npc)
      requires world.Valid()
      modifies `live, aiManager
      ensures world.Valid() && Books() == old(Books())
      ensures live == if old(IsLive(npc)) then old(live) - {npc.body.objectID} else old(live)
      ensures aiManager.controllers == old(aiManager.controllers) - {npc.body.objectID}
      ensures aiManager.controllerCount ==
              old(aiManager.controllerCount) - if npc.body.objectID in old(aiManager.controllers) then 1 else 0
    {
      aiManager.Unregister(npc.body.objectID);
      if IsLive(npc) {
        live := live - {npc.body.objectID};
      }
    }

    method Discharge(npc: Npc)
      requires world.Valid() && npc.spawn in points
      modifies npc.spawn`currentCount, npc.spawn`npcList
      ensures world.Valid()
      ensures npc.spawn in old(Books())
      ensures Books() == Struck(old(Books()), npc)
    {
      npc.spawn.RemoveNpc(npc);
      npc.spawn.DecreaseCount();
    }

    /** What a valid state looks like from outside. */
    ghost predicate EverythingAgrees()
      requires Gridded(world.regions)
      reads `live, `spawns, `points, aiManager, points`currentCount, points`npcList
      reads world`regions, world`objects, world.AllRegions()`visibleObjects
    {
      // count and list of every spawn point, loaded or not
      && spawns.Values <= points
      && (forall s :: s in points ==>
            s.currentCount == |s.npcList| && (s.currentCount <= s.maximumCount || s.currentCount == 0) && NoDup(s.npcList))
      // the lists hold exactly the live NPCs, and these have distinct IDs
      && (forall s, n :: s in points && n in s.npcList ==> n in live.Values && n.spawn == s)
      && (forall n :: n in live.Values ==> n.spawn in points && n in n.spawn.npcList)
      && (forall n, n' :: n in live.Values && n' in live.Values && n != n' ==> n.body.objectID != n'.body.objectID)
      // so do the AI registry and, among the IDs the manager gives out, the world
      && aiManager.controllers == live && aiManager.controllerCount == |live|
      && (forall id :: id > FIRST_OBJECT_ID ==> (id in world.objects <==> id in live))
      && (forall id :: id in live ==> id > FIRST_OBJECT_ID && world.objects[id] == live[id].body)
      // each NPC is in the one region of its location
      && (forall id, i, j :: id in live && 0 <= i < REGIONS_X && 0 <= j < REGIONS_Y ==>
            (id in world.regions[i][j].visibleObjects <==> CoordToRegionIndex(live[id].spawn.x, live[id].spawn.y) == (i, j)))
      && forall id, i, j :: 0 <= i < REGIONS_X && 0 <= j < REGIONS_Y && id > FIRST_OBJECT_ID ==>
           (id in world.regions[i][j].visibleObjects ==> id in live)
    }

    lemma ValidMeansAgreement()
      requires Valid()
      ensures EverythingAgrees()
    {
      forall s | s in points
        ensures Keeps(s, s.currentCount, s.npcList, live)
      {
        Entry(s);
      }
      forall n | n in live.Values
        ensures n.spawn in points && n in n.spawn.npcList && n.body.objectID in live && live[n.body.objectID] == n
      {
        var id :| id in live && live[id] == n;
        assert live[id].spawn in Books();
        Entry(n.spawn);
      }
      forall s | s in spawns.Values
        ensures s in points
      {
        var id :| id in spawns && spawns[id] == s;
      }
    }
  }

  /**
   * An object that is no NPC, such as a player, enters the world: the manager's books are not touched, and all stays in
   * agreement unless its ID was taken by an object of another region.
   */
  method OtherEnters(m: SpawnManager, obj: WorldObject) returns (ok: bool)
    requires m.Valid() && obj.objectID <= FIRST_OBJECT_ID
    modifies m.world`objects, m.world.AllRegions()`visibleObjects
    ensures ok <==> InWorld(obj.x, obj.y)
    ensures m.world.objects == if ok then old(m.world.objects)[obj.objectID := obj] else old(m.world.objects)
    ensures m.Valid() <==>
            !ok || obj.objectID !in old(m.world.objects) || RegionOf(old(m.world.objects)[obj.objectID]) == RegionOf(obj)
  {
    hide World.Linked, World.Coupled, World.AllRegions, Balanced, SpawnManager.Books, Registered, CoordToRegionIndex;
    ghost var objects := m.world.objects;
    ok := m.world.AddObject(obj);
    OthersDoNotMatter(m, objects, obj.objectID);
  }

  /** The registries agree whatever becomes of an ID the manager did not give out. */
  lemma OthersDoNotMatter(m: SpawnManager, objects: map<uint32, WorldObject>, id: uint32)
    requires Registered(objects, m.aiManager.controllers, m.aiManager.controllerCount, m.live, m.objectIDCounter)
    requires id <= FIRST_OBJECT_ID && m.world.objects - {id} == objects - {id}
    ensures m.RegistriesAgree()
  {
    forall k | k != id
      ensures k in m.world.objects <==> k in objects
      ensures k in objects ==> m.world.objects[k] == objects[k]
    {
      assert k in m.world.objects - {id} <==> k in objects - {id};
      assert k in objects ==> (m.world.objects - {id})[k] == (objects - {id})[k];
    }
  }

  method OtherLeaves(m: SpawnManager, objectID: uint32)
    requires m.Valid() && objectID <= FIRST_OBJECT_ID
    modifies m.world`objects, m.world.AllRegions()`visibleObjects
    ensures m.Valid() && m.world.objects == old(m.world.objects) - {objectID}
  {
    hide World.Linked, World.Coupled, World.AllRegions, Balanced, SpawnManager.Books, Registered;
    ghost var objects := m.world.objects;
    m.world.RemoveObject(objectID);
    OthersDoNotMatter(m, objects, objectID);
  }
}
