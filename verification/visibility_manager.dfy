/** Periodic refreshing of the players' snapshots. */
module VisibilityManagement {
  import opened Grid
  import opened Integers
  import opened Players
  import opened Visibility
  import opened WorldIndex
  import opened Wrappers

  /** c is what a refresh at this time would leave for a player of region index i. */
  ghost predicate Rebuilt(c: VisibilityCache, objects: map<uint32, WorldObject>, now: int, i: (int32, int32)) {
    c.lastUpdate == now && c.regionX == i.0 && c.regionY == i.1 && multiset(c.objects) == SlowVisible(objects, i.0, i.1)
  }

  /** Fresh enough and taken for the right region index. */
  ghost predicate Current(c: VisibilityCache, now: int, maxAge: int, i: (int32, int32)) {
    !c.IsStale(now, maxAge) && c.IsValidForRegion(i.0, i.1)
  }

  /** Missing, stale or for another region index. */
  ghost predicate Outdated(c: Option<VisibilityCache>, now: int, maxAge: int, i: (int32, int32)) {
    c.Some? ==> !Current(c.value, now, maxAge, i)
  }

  ghost predicate Refreshed(before: Option<VisibilityCache>, after: Option<VisibilityCache>, objects: map<uint32, WorldObject>,
                            now: int, maxAge: int, i: (int32, int32))
  {
    && after.Some?
    && if Outdated(before, now, maxAge, i) then Rebuilt(after.value, objects, now, i) else after == before
  }

  class VisibilityManager {
    var players: set<Player>
    const maxAge: int
    const world: World

    constructor (world: World, maxAge: int)
      ensures players == {} && this.world == world && this.maxAge == maxAge
    {
      players := {};
      this.world := world;
      this.maxAge := maxAge;
    }

    method RegisterPlayer(player: Player)
      modifies `players
      ensures players == old(players) + {player}
    {
      players := players + {player};
    }

    method UnregisterPlayer(player: Player)
      modifies `players, player`cache
      ensures players == old(players) - {player} && player.cache == None
    {
      players := players - {player};
      player.InvalidateVisibilityCache();
    }

    method GetVisibleObjects(regionX: int32, regionY: int32) returns (objects: seq<WorldObject>)
      requires world.Valid()
      ensures multiset(objects) == SlowVisible(world.objects, regionX, regionY)
    {
      hide SameRegion, VisibleFrom, HeldBy, Window, Column, Sees, NoDup;
      var current := world.GetRegion(regionX, regionY);
      if current.None? {
        return [];
      }
      var all: Callback := (_, _) => true;
      RegionKeyed(world, current.value);
      var centre, stoppedFirst := current.value.ForEachVisibleObject(all, []);
      NotStopped(all, [], centre, stoppedFirst);
      WindowOnGrid(world, current.value);
      var window, stopped := VisitRegions(world, current.value.surroundingRegions, all, centre);
      NotStopped(all, centre, window, stopped);
      CentreHolds(world, regionX, regionY);
      WindowHolds(world, regionX, regionY);
      DistinctCount(centre);
      DistinctCount(window);
      return centre + window;
    }

    method UpdatePlayerCache(player: Player, now: int) returns (updated: bool)
      requires world.Valid()
      modifies player`cache
      ensures world.Valid()
      ensures Refreshed(old(player.cache), player.cache, world.objects, now, maxAge, player.RegionIndex())
      ensures updated <==> Outdated(old(player.cache), now, maxAge, player.RegionIndex())
      ensures updated <==> !(old(player.cache).Some? && now - old(player.cache).value.lastUpdate <= maxAge
                             && old(player.cache).value.regionX == player.RegionIndex().0
                             && old(player.cache).value.regionY == player.RegionIndex().1)
    {
      var (regionX, regionY) := CoordToRegionIndex(player.x, player.y);
      var cache := player.cache;
      if cache.Some? {
        if !cache.value.IsStale(now, maxAge) && cache.value.IsValidForRegion(regionX, regionY) {
          return false;
        }
      }
      var visibleObjects := GetVisibleObjects(regionX, regionY);
      player.SetVisibilityCache(VisibilityCache(visibleObjects, now, regionX, regionY));
      return true;
    }

    /** One sweep with the clock and the world standing still. */
    method UpdateAll(now: int) returns (updated: nat, skipped: nat)
      requires world.Valid()
      modifies players`cache
      ensures forall p :: p in players ==>
                Refreshed(old(p.cache), p.cache, world.objects, now, maxAge, p.RegionIndex())
      ensures updated == |old(Due(now))| && updated + skipped == |players|
      ensures forall p :: p in players ==>
                && p.cache.Some? && p.cache.value.regionX == p.RegionIndex().0 && p.cache.value.regionY == p.RegionIndex().1
                && (maxAge >= 0 ==> now - p.cache.value.lastUpdate <= maxAge)
                && (maxAge >= 0 ==>
                      (p.cache == old(p.cache) <==>
                         && old(p.cache).Some? && now - old(p.cache).value.lastUpdate <= maxAge
                         && old(p.cache).value.regionX == p.RegionIndex().0 && old(p.cache).value.regionY == p.RegionIndex().1))
    {
      hide Refreshed, Outdated, Gridded, World.Linked, World.Coupled, World.AllRegions, CoordToRegionIndex;
      updated, skipped := 0, 0;
      var todo := players;
      ghost var due, rebuilt: set<Player> := Due(now), {};
      while todo != {}
        invariant todo <= players && world.Valid()
        invariant forall p :: p in todo ==> p.cache == old(p.cache)
        invariant forall p :: p in players - todo ==>
                    Refreshed(old(p.cache), p.cache, world.objects, now, maxAge, p.RegionIndex())
        invariant rebuilt == due - todo && updated == |rebuilt| && updated + skipped + |todo| == |players|
        decreases |todo|
      {
        var player :| player in todo;
        var done := UpdatePlayerCache(player, now);
        if done {
          updated := updated + 1;
          rebuilt := rebuilt + {player};
        } else {
          skipped := skipped + 1;
        }
        todo := todo - {player};
      }
      forall p | p in players
        ensures
          && p.cache.Some? && p.cache.value.regionX == p.RegionIndex().0 && p.cache.value.regionY == p.RegionIndex().1
          && (maxAge >= 0 ==> now - p.cache.value.lastUpdate <= maxAge)
          && (maxAge >= 0 ==>
                (p.cache == old(p.cache) <==>
                   && old(p.cache).Some? && now - old(p.cache).value.lastUpdate <= maxAge
                   && old(p.cache).value.regionX == p.RegionIndex().0 && old(p.cache).value.regionY == p.RegionIndex().1))
      {
        RefreshedMeans(old(p.cache), p.cache, world.objects, now, maxAge, p.RegionIndex());
      }
    }

    ghost function Due(now: int): set<Player>
      reads `players, players
    {
      set p | p in players && Outdated(p.cache, now, maxAge, p.RegionIndex())
    }
  }

  /**
   * After a sweep a player's snapshot is for the player's region index and, if the age limit is not negative, no older than it;
   * and then it is the one from before exactly when that one already was so.
   */
  lemma RefreshedMeans(before: Option<VisibilityCache>, after: Option<VisibilityCache>,
                       objects: map<uint32, WorldObject>, now: int, maxAge: int, i: (int32, int32))
    requires Refreshed(before, after, objects, now, maxAge, i)
    ensures after.Some? && after.value.regionX == i.0 && after.value.regionY == i.1
    ensures maxAge >= 0 ==> now - after.value.lastUpdate <= maxAge
    ensures maxAge >= 0 ==>
              (after == before <==>
                 before.Some? && now - before.value.lastUpdate <= maxAge && before.value.regionX == i.0 && before.value.regionY == i.1)
    ensures after != before ==> after.value.lastUpdate == now && multiset(after.value.objects) == SlowVisible(objects, i.0, i.1)
  {
  }

  /** After a sweep a player's snapshot is for the player's region index and, unless the age limit is negative, fresh. */
  lemma RefreshedIsCurrent(before: Option<VisibilityCache>, after: Option<VisibilityCache>,
                           objects: map<uint32, WorldObject>, now: int, maxAge: int, i: (int32, int32))
    requires Refreshed(before, after, objects, now, maxAge, i)
    ensures after.Some? && after.value.regionX == i.0 && after.value.regionY == i.1
    ensures now - after.value.lastUpdate <= maxAge <==>
              maxAge >= 0 || (before == after && now - before.value.lastUpdate <= maxAge)
  {
  }

  /** A rebuilt snapshot read back shows what the slow query shows, exactly when everything in it has an ID. */
  lemma CachedAgreesWithSlow(c: VisibilityCache, objects: map<uint32, WorldObject>, now: int, i: (int32, int32))
    requires Rebuilt(c, objects, now, i)
    ensures multiset(Existing(c.objects)) == SlowVisible(objects, i.0, i.1) <==>
            forall o :: o in SlowVisible(objects, i.0, i.1) ==> ObjectExists(o)
  {
    ExistingIsAllIff(c.objects);
    forall o
      ensures o in c.objects <==> o in SlowVisible(objects, i.0, i.1)
    {
      assert o in c.objects <==> o in multiset(c.objects);
    }
  }
}
