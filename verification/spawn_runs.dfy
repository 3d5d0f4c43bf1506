/** Whole runs of the spawn manager: any list of loads, births, deaths and sweeps, with players coming and going in between. */
module SpawnRuns {
  import opened Grid
  import opened Integers
  import opened Spawns
  import opened WorldIndex
  import opened Wrappers

  /** A death names the NPC by the order of births; a sweep comes with the order in which it finds the spawn points. */
  datatype Step =
    | Load(loaded: seq<Spawn>)
    | Birth(spawn: Spawn, template: bool)
    | Death(k: nat)
    | All(order: seq<int64>, load: Loader)
    | OtherIn(obj: WorldObject)
    | OtherOut(objectID: uint32)

  function SpawnsOf(step: Step): set<Spawn> {
    match step
    case Load(loaded) => Elems(loaded)
    case Birth(spawn, _) => {spawn}
    case _ => {}
  }

  predicate NoRepeats(order: seq<int64>)
    ensures NoRepeats(order) ==> NoDup(order)
  {
    |order| == 0 || (order[0] !in order[1..] && NoRepeats(order[1..]))
  }

  /** What a step makes of the spawn points stored by ID. */
  function SpawnsAfter(m: map<int64, Spawn>, step: Step): map<int64, Spawn> {
    match step
    case Load(loaded) => Stored(m, loaded)
    case _ => m
  }

  /** What a step makes of the objects that are no NPCs. */
  function OthersAfter(objects: map<uint32, WorldObject>, step: Step): map<uint32, WorldObject> {
    match step
    case OtherIn(obj) =>
      if obj.objectID <= FIRST_OBJECT_ID && obj.objectID !in objects && InWorld(obj.x, obj.y) then objects[obj.objectID := obj]
      else objects
    case OtherOut(objectID) => if objectID <= FIRST_OBJECT_ID then objects - {objectID} else objects
    case _ => objects
  }

  function AllSpawnsAfter(m: map<int64, Spawn>, steps: seq<Step>): map<int64, Spawn> {
    if |steps| == 0 then m else SpawnsAfter(AllSpawnsAfter(m, steps[..|steps| - 1]), steps[|steps| - 1])
  }

  function AllOthersAfter(objects: map<uint32, WorldObject>, steps: seq<Step>): map<uint32, WorldObject> {
    if |steps| == 0 then objects else OthersAfter(AllOthersAfter(objects, steps[..|steps| - 1]), steps[|steps| - 1])
  }

  /** What a run keeps: the manager's invariant, and that it knows or can use every spawn point there is to come. */
  ghost predicate Running(m: SpawnManager, all: set<Spawn>, born: seq<Npc>)
    reads m, m.aiManager, m.points`currentCount, m.points`npcList, all`currentCount, all`npcList
    reads m.world`regions, m.world`objects, m.world.AllRegions()`visibleObjects, m.world.AllRegions()`surroundingRegions
  {
    && m.Valid()
    && m.points <= all
    && (forall s :: s in all ==> m.Usable(s))
    && forall n :: n in born ==> n.spawn in m.points
  }

  lemma ControllersAreLive(m: SpawnManager)
    requires m.Valid()
    ensures m.aiManager.controllers == m.live
    ensures forall id :: id in m.live ==> id > FIRST_OBJECT_ID
  {
  }

  method FillAll(m: SpawnManager, order: seq<int64>, load: Loader, born: seq<Npc>, ghost all: set<Spawn>)
    requires Running(m, all, born) && NoDup(order) && Elems(order) == m.spawns.Keys
    modifies m`objectIDCounter, m`live, m`points, all`currentCount, all`npcList
    modifies m.aiManager, m.world`objects, m.world.AllRegions()`visibleObjects
    ensures Running(m, all, born)
    ensures old(m.objectIDCounter + m.Demand(order)) <= MAX_UINT32 ==>
              forall id :: id in m.spawns ==> Filled(m.spawns[id], old(m.Counts())[id], m.Counts()[id], load)
    ensures Others(m.world.objects) == old(Others(m.world.objects))
  {
    hide World.Linked, World.Coupled, World.AllRegions, Registered, Balanced, SpawnManager.Books, SpawnManager.Demand,
         SpawnManager.Counts, NoDup, Others, Filled;
    if m.objectIDCounter + m.Demand(order) <= MAX_UINT32 {
      var failed := m.SpawnAll(order, load);
    }
  }

  method Bear(m: SpawnManager, spawn: Spawn, template: bool, born: seq<Npc>, ghost all: set<Spawn>) returns (born': seq<Npc>)
    requires Running(m, all, born) && spawn in all
    modifies m`objectIDCounter, m`live, m`points, all`currentCount, all`npcList
    modifies m.aiManager, m.world`objects, m.world.AllRegions()`visibleObjects
    ensures Running(m, all, born')
    ensures var can := old(m.objectIDCounter) < MAX_UINT32 && old(spawn.currentCount) < spawn.maximumCount
                       && template && InWorld(spawn.x, spawn.y);
            if can then
              && |born'| == |born| + 1 && born <= born' && born'[|born|].spawn == spawn
              && born'[|born|].body.objectID == old(m.objectIDCounter) + 1
              && m.live == old(m.live)[(old(m.objectIDCounter) + 1) as uint32 := born'[|born|]]
            else born' == born && m.live == old(m.live)
    ensures Others(m.world.objects) == old(Others(m.world.objects))
  {
    hide World.Linked, World.Coupled, World.AllRegions, Registered, Balanced, SpawnManager.Books, Met, Enrolled, Others;
    born' := born;
    if m.objectIDCounter < MAX_UINT32 {
      ghost var objects := m.world.objects;
      m.FreshID();
      var r := m.DoSpawn(spawn, template);
      OthersStay(objects, m.world.objects, m.objectIDCounter);
      if r.Some? {
        born' := born + [r.value];
      }
    }
  }

  method Bury(m: SpawnManager, k: nat, born: seq<Npc>, ghost all: set<Spawn>)
    requires Running(m, all, born)
    modifies m`live, m`points, all`currentCount, all`npcList
    modifies m.aiManager, m.world`objects, m.world.AllRegions()`visibleObjects
    ensures Running(m, all, born)
    ensures m.live == if k < |born| && old(m.IsLive(born[k])) then old(m.live) - {born[k].body.objectID} else old(m.live)
    ensures Others(m.world.objects) == old(Others(m.world.objects))
  {
    hide World.Linked, World.Coupled, World.AllRegions, Registered, Balanced, SpawnManager.Books, Met, Struck, Others;
    ControllersAreLive(m);
    if k < |born| && born[k].body.objectID in m.aiManager.controllers
       && m.aiManager.controllers[born[k].body.objectID] == born[k] {
      ghost var objects := m.world.objects;
      m.DespawnNpc(born[k]);
      OthersStay(objects, m.world.objects, born[k].body.objectID);
    }
  }

  /** One step. A birth that would wrap the ID counter, a death of an NPC that is not alive and an ID already in use are skipped. */
  method Apply(m: SpawnManager, step: Step, born: seq<Npc>, ghost all: set<Spawn>) returns (born': seq<Npc>)
    requires Running(m, all, born) && SpawnsOf(step) <= all
    modifies m`objectIDCounter, m`live, m`points, m`spawns, all`currentCount, all`npcList
    modifies m.aiManager, m.world`objects, m.world.AllRegions()`visibleObjects
    ensures Running(m, all, born')
    ensures m.spawns == SpawnsAfter(old(m.spawns), step)
    ensures Others(m.world.objects) == OthersAfter(old(Others(m.world.objects)), step)
    ensures step.Birth? ==>
              var can := old(m.objectIDCounter) < MAX_UINT32 && old(step.spawn.currentCount) < step.spawn.maximumCount
                         && step.template && InWorld(step.spawn.x, step.spawn.y);
              if can then
                && |born'| == |born| + 1 && born <= born' && born'[|born|].spawn == step.spawn
                && m.live == old(m.live)[(old(m.objectIDCounter) + 1) as uint32 := born'[|born|]]
              else born' == born && m.live == old(m.live)
    ensures !step.Birth? ==> born' == born
    ensures step.Death? ==>
              m.live == if step.k < |born| && old(m.IsLive(born[step.k])) then old(m.live) - {born[step.k].body.objectID}
                        else old(m.live)
    ensures step.All? && NoRepeats(step.order) && Elems(step.order) == m.spawns.Keys
            && old(m.objectIDCounter + m.Demand(step.order)) <= MAX_UINT32 ==>
              forall id :: id in m.spawns ==> Filled(m.spawns[id], old(m.Counts())[id], m.Counts()[id], step.load)
    ensures !step.Birth? && !step.Death? && !step.All? ==> m.live == old(m.live)
  {
    hide World.Linked, World.Coupled, World.AllRegions, Registered, Balanced, SpawnManager.Books, SpawnManager.Demand,
         SpawnManager.Counts, Stored, Filled, Others;
    born' := born;
    match step
    case Load(loaded) => m.LoadSpawns(loaded);
    case Birth(spawn, template) => born' := Bear(m, spawn, template, born, all);
    case Death(k) => Bury(m, k, born, all);
    case All(order, load) =>
      if NoRepeats(order) && Elems(order) == m.spawns.Keys {
        FillAll(m, order, load, born, all);
      }
    case OtherIn(obj) => LetIn(m, obj, born, all);
    case OtherOut(objectID) => LetOut(m, objectID, born, all);
  }

  method LetIn(m: SpawnManager, obj: WorldObject, born: seq<Npc>, ghost all: set<Spawn>)
    requires Running(m, all, born)
    modifies m.world`objects, m.world.AllRegions()`visibleObjects
    ensures Running(m, all, born)
    ensures Others(m.world.objects) == OthersAfter(old(Others(m.world.objects)), OtherIn(obj))
  {
    hide World.Linked, World.Coupled, World.AllRegions, Registered, Balanced, SpawnManager.Books;
    if obj.objectID <= FIRST_OBJECT_ID && obj.objectID !in m.world.objects {
      var ok := OtherEnters(m, obj);
    }
  }

  method LetOut(m: SpawnManager, objectID: uint32, born: seq<Npc>, ghost all: set<Spawn>)
    requires Running(m, all, born)
    modifies m.world`objects, m.world.AllRegions()`visibleObjects
    ensures Running(m, all, born)
    ensures Others(m.world.objects) == OthersAfter(old(Others(m.world.objects)), OtherOut(objectID))
  {
    hide World.Linked, World.Coupled, World.AllRegions, Registered, Balanced, SpawnManager.Books;
    if objectID <= FIRST_OBJECT_ID {
      OtherLeaves(m, objectID);
    }
  }

  /** After every run from an empty manager everything agrees. all are the spawn points that the steps speak of. */
  method Run(world: World, aiManager: TickManager, steps: seq<Step>, ghost all: set<Spawn>) returns (m: SpawnManager)
    requires world.Valid() && forall id :: id in world.objects ==> id <= FIRST_OBJECT_ID
    requires aiManager.controllers == map[] && aiManager.controllerCount == 0
    requires forall s :: s in all ==> s.currentCount == 0 && s.npcList == []
    requires forall i :: 0 <= i < |steps| ==> SpawnsOf(steps[i]) <= all
    modifies all`currentCount, all`npcList, aiManager, world`objects, world.AllRegions()`visibleObjects
    ensures fresh(m) && m.world == world && m.aiManager == aiManager
    ensures m.Valid() && m.EverythingAgrees()
    ensures m.spawns == AllSpawnsAfter(map[], steps)
    ensures Others(world.objects) == AllOthersAfter(old(world.objects), steps)
  {
    hide Registered, Balanced, SpawnManager.Books, SpawnsOf, SpawnsAfter, OthersAfter, Others;
    m := new SpawnManager(world, aiManager);
    var born: seq<Npc> := [];
    NoNpcsYet(world.objects);
    for i := 0 to |steps|
      invariant fresh(m) && m.world == world && m.aiManager == aiManager && world.AllRegions() == old(world.AllRegions())
      invariant Running(m, all, born)
      invariant m.spawns == AllSpawnsAfter(map[], steps[..i])
      invariant Others(world.objects) == AllOthersAfter(old(world.objects), steps[..i])
    {
      assert steps[..i + 1][..i] == steps[..i];
      born := Apply(m, steps[i], born, all);
    }
    assert steps[..|steps|] == steps;
    m.ValidMeansAgreement();
  }

  lemma NoNpcsYet(objects: map<uint32, WorldObject>)
    requires forall id :: id in objects ==> id <= FIRST_OBJECT_ID
    ensures Others(objects) == objects
  {
  }
}
