/** Who sees what: the window query, the players' slow query and the query of a player's cached list. */
module Visibility {
  import opened Grid
  import opened Integers
  import opened WorldIndex
  import opened Players
  import opened Wrappers

  // ---- the window as a set of regions ----

  predicate Inside(g: RegionGrid, r: Region, rx: int, ry: int, x0: int, x1: int, y0: int, y1: int)
    requires Gridded(g)
  {
    && 0 <= r.rx < REGIONS_X && 0 <= r.ry < REGIONS_Y && r == g[r.rx][r.ry]
    && rx + x0 <= r.rx <= rx + x1 && ry + y0 <= r.ry <= ry + y1
  }

  lemma NoDupConcat<T>(s: seq<T>, t: seq<T>)
    requires NoDup(s) && NoDup(t) && forall x :: x in s ==> x !in t
    ensures NoDup(s + t) && Elems(s + t) == Elems(s) + Elems(t)
  {
    forall i, j | 0 <= i < j < |s + t|
      ensures (s + t)[i] != (s + t)[j]
    {
      if i < |s| <= j {
        assert s[i] in s && t[j - |s|] in t;
      }
    }
  }

  lemma {:induction false} ColumnMembers(g: RegionGrid, rx: int, ry: int, n: nat)
    requires Gridded(g)
    ensures NoDup(Column(g, rx, ry, n))
    ensures forall r :: r in Column(g, rx, ry, n) <==> Inside(g, r, rx, ry, 0, 0, -1, n - 2)
    ensures forall r :: r in Column(g, rx, ry, n) ==> r.rx == rx
  {
    if n > 0 {
      ColumnMembers(g, rx, ry, n - 1);
      NoDupConcat(Column(g, rx, ry, n - 1), At(g, rx, ry + n - 2));
    }
  }

  lemma {:induction false} WindowMembers(g: RegionGrid, rx: int, ry: int, n: nat)
    requires Gridded(g)
    ensures NoDup(Window(g, rx, ry, n))
    ensures forall r :: r in Window(g, rx, ry, n) <==> Inside(g, r, rx, ry, -1, n - 2, -1, 1)
    ensures forall r :: r in Window(g, rx, ry, n) ==> r.rx <= rx + n - 2
  {
    if n > 0 {
      WindowMembers(g, rx, ry, n - 1);
      ColumnMembers(g, rx + n - 2, ry, 3);
      NoDupConcat(Window(g, rx, ry, n - 1), Column(g, rx + n - 2, ry, 3));
    }
  }

  // ---- the objects of a list of regions ----

  function HeldBy(rs: seq<Region>): set<WorldObject>
    reads rs
  {
    if |rs| == 0 then {} else HeldBy(rs[..|rs| - 1]) + Held(rs[|rs| - 1].visibleObjects)
  }

  lemma {:induction false} HeldByMember(rs: seq<Region>, o: WorldObject)
    ensures o in HeldBy(rs) <==> exists r :: r in rs && o in Held(r.visibleObjects)
  {
    if |rs| > 0 {
      HeldByMember(rs[..|rs| - 1], o);
      assert rs == rs[..|rs| - 1] + [rs[|rs| - 1]];
    }
  }

  /** All objects in the window seen from (x, y), by location alone. */
  function VisibleFrom(objects: map<uint32, WorldObject>, x: int32, y: int32): set<WorldObject> {
    set id | id in objects && Sees(x, y, objects[id].x, objects[id].y) :: objects[id]
  }

  predicate OnGrid(g: RegionGrid, r: Region)
    requires Gridded(g)
  {
    0 <= r.rx < REGIONS_X && 0 <= r.ry < REGIONS_Y && r == g[r.rx][r.ry]
  }

  lemma HeldOnGrid(w: World, r: Region, o: WorldObject)
    requires w.Valid() && OnGrid(w.regions, r)
    ensures o in Held(r.visibleObjects) <==> o in w.objects.Values && RegionOf(o) == (r.rx, r.ry)
  {
    assert r.visibleObjects == InRegion(w.objects, r.rx, r.ry);
    if o in w.objects.Values && RegionOf(o) == (r.rx, r.ry) {
      var id :| id in w.objects && w.objects[id] == o;
      assert id in r.visibleObjects;
    }
  }

  /** What the neighbour list of a region holds is what its window contains. */
  lemma WindowHolds(w: World, x: int32, y: int32)
    requires w.Valid() && InWorld(x, y)
    ensures var i := CoordToRegionIndex(x, y);
            HeldBy(w.regions[i.0][i.1].surroundingRegions) == VisibleFrom(w.objects, x, y)
  {
    hide Column, Window;
    var (rx, ry) := CoordToRegionIndex(x, y);
    var rs := w.regions[rx][ry].surroundingRegions;
    WindowMembers(w.regions, rx, ry, 3);
    forall o | o in HeldBy(rs)
      ensures o in VisibleFrom(w.objects, x, y)
    {
      HeldByMember(rs, o);
      WindowHoldsObject(w, x, y, o);
    }
    forall o | o in VisibleFrom(w.objects, x, y)
      ensures o in HeldBy(rs)
    {
      HeldByMember(rs, o);
      WindowHoldsObject(w, x, y, o);
    }
  }

  lemma WindowHoldsObject(w: World, x: int32, y: int32, o: WorldObject)
    requires w.Valid() && InWorld(x, y)
    ensures var i := CoordToRegionIndex(x, y);
            (exists r :: r in w.regions[i.0][i.1].surroundingRegions && o in Held(r.visibleObjects))
            <==> o in VisibleFrom(w.objects, x, y)
  {
    hide Column, Window;
    var (rx, ry) := CoordToRegionIndex(x, y);
    var rs := w.regions[rx][ry].surroundingRegions;
    WindowMembers(w.regions, rx, ry, 3);
    if r :| r in rs && o in Held(r.visibleObjects) {
      assert Inside(w.regions, r, rx, ry, -1, 1, -1, 1);
      HeldOnGrid(w, r, o);
    }
    if o in VisibleFrom(w.objects, x, y) {
      var (ox, oy) := RegionOf(o);
      var r := w.regions[ox][oy];
      assert Inside(w.regions, r, rx, ry, -1, 1, -1, 1);
      HeldOnGrid(w, r, o);
    }
  }

  // ---- visiting a list of regions ----

  /** The loop both queries run over a neighbour list. */
  method VisitRegions(w: World, rs: seq<Region>, fn: Callback, seen: seq<WorldObject>)
    returns (visited: seq<WorldObject>, stopped: bool)
    requires w.Valid() && NoDup(rs) && forall r :: r in rs ==> OnGrid(w.regions, r)
    ensures NoDup(visited) && Answers(fn, seen, visited, stopped)
    ensures Elems(visited) <= HeldBy(rs)
    ensures !stopped ==> Elems(visited) == HeldBy(rs)
  {
    visited, stopped := [], false;
    for k := 0 to |rs|
      invariant NoDup(visited) && Answers(fn, seen, visited, false)
      invariant Elems(visited) == HeldBy(rs[..k])
    {
      RegionKeyed(w, rs[k]);
      var more, stop := rs[k].ForEachVisibleObject(fn, seen + visited);
      RegionsDisjoint(w, rs, k);
      assert forall o :: o in visited ==> o in Elems(visited);
      NoDupConcat(visited, more);
      AnswersConcat(fn, seen, visited, more, stop);
      HeldByPrefix(rs, k);
      visited := visited + more;
      if stop {
        return visited, true;
      }
    }
    assert rs[..|rs|] == rs;
  }

  lemma RegionKeyed(w: World, r: Region)
    requires w.Valid() && OnGrid(w.regions, r)
    ensures Keyed(r.visibleObjects)
  {
    assert r.visibleObjects == InRegion(w.objects, r.rx, r.ry);
  }

  lemma RegionsDisjoint(w: World, rs: seq<Region>, k: nat)
    requires w.Valid() && NoDup(rs) && k < |rs|
    requires forall r :: r in rs ==> OnGrid(w.regions, r)
    ensures HeldBy(rs[..k]) !! Held(rs[k].visibleObjects)
  {
    forall o | o in HeldBy(rs[..k])
      ensures o !in Held(rs[k].visibleObjects)
    {
      HeldByMember(rs[..k], o);
      var r :| r in rs[..k] && o in Held(r.visibleObjects);
      HeldOnGrid(w, r, o);
      HeldOnGrid(w, rs[k], o);
    }
  }

  lemma HeldByPrefix(rs: seq<Region>, k: nat)
    requires k < |rs|
    ensures HeldBy(rs[..k + 1]) == HeldBy(rs[..k]) + Held(rs[k].visibleObjects)
    ensures HeldBy(rs[..k + 1]) <= HeldBy(rs)
  {
    assert rs[..k + 1][..k] == rs[..k];
    forall o | o in HeldBy(rs[..k + 1])
      ensures o in HeldBy(rs)
    {
      HeldByMember(rs[..k + 1], o);
      HeldByMember(rs, o);
    }
  }

  // ---- the three queries ----

  /**
   * Shows fn exactly the objects whose region index differs by at most one on each axis, each once; when fn says no, it has
   * been shown the beginning of such an enumeration.
   */
  method ForEachVisibleObject(w: World, x: int32, y: int32, fn: Callback) returns (visited: seq<WorldObject>, stopped: bool)
    requires w.Valid()
    ensures NoDup(visited) && Answers(fn, [], visited, stopped)
    ensures Elems(visited) <= VisibleFrom(w.objects, x, y)
    ensures !stopped ==> Elems(visited) == VisibleFrom(w.objects, x, y)
    ensures forall o :: o in visited ==> o.objectID in w.objects && w.objects[o.objectID] == o && Sees(x, y, o.x, o.y)
    ensures !stopped ==> forall id :: id in w.objects && Sees(x, y, w.objects[id].x, w.objects[id].y) ==> w.objects[id] in visited
  {
    var region := w.GetRegion(x, y);
    if region.None? {
      return [], false;
    }
    WindowOnGrid(w, region.value);
    WindowHolds(w, x, y);
    visited, stopped := VisitRegions(w, region.value.surroundingRegions, fn, []);
    VisitedMeans(w, x, y, visited, stopped);
  }

  lemma VisitedMeans(w: World, x: int32, y: int32, visited: seq<WorldObject>, stopped: bool)
    requires w.Valid()
    requires Elems(visited) <= VisibleFrom(w.objects, x, y)
    requires !stopped ==> Elems(visited) == VisibleFrom(w.objects, x, y)
    ensures forall o :: o in visited ==> o.objectID in w.objects && w.objects[o.objectID] == o && Sees(x, y, o.x, o.y)
    ensures !stopped ==> forall id :: id in w.objects && Sees(x, y, w.objects[id].x, w.objects[id].y) ==> w.objects[id] in visited
  {
    hide Sees;
    forall o | o in visited
      ensures o in VisibleFrom(w.objects, x, y)
    {
      assert o in Elems(visited);
    }
    if !stopped {
      forall id | id in w.objects && Sees(x, y, w.objects[id].x, w.objects[id].y)
        ensures w.objects[id] in visited
      {
        assert w.objects[id] in VisibleFrom(w.objects, x, y);
        assert w.objects[id] in Elems(visited);
      }
    }
  }

  lemma WindowOnGrid(w: World, r: Region)
    requires w.Valid() && OnGrid(w.regions, r)
    ensures NoDup(r.surroundingRegions) && forall s :: s in r.surroundingRegions ==> OnGrid(w.regions, s)
  {
    WindowMembers(w.regions, r.rx, r.ry, 3);
    assert w.regions[r.rx][r.ry].surroundingRegions == Window(w.regions, r.rx, r.ry, 3);
  }

  lemma NotStopped(fn: Callback, seen: seq<WorldObject>, visited: seq<WorldObject>, stopped: bool)
    requires Answers(fn, seen, visited, stopped)
    requires forall i :: 0 <= i < |visited| ==> fn(seen + visited[..i], visited[i])
    ensures !stopped
  {
    if |visited| > 0 {
      var i := |visited| - 1;
      assert fn(seen + visited[..i], visited[i]);
    }
  }

  method CountVisibleObjects(w: World, x: int32, y: int32) returns (count: nat)
    requires w.Valid()
    ensures count == |VisibleFrom(w.objects, x, y)|
  {
    var all: Callback := (_, _) => true;
    var visited, stopped := ForEachVisibleObject(w, x, y, all);
    NotStopped(all, [], visited, stopped);
    DistinctCount(visited);
    count := |visited|;
  }

  lemma {:induction false} DistinctCount<T>(s: seq<T>)
    requires NoDup(s)
    ensures |Elems(s)| == |s|
    ensures multiset(s) == multiset(Elems(s))
  {
    if |s| > 0 {
      var init, last := s[..|s| - 1], s[|s| - 1];
      assert s == init + [last];
      DistinctCount(init);
      assert Elems(s) == Elems(init) + {last};
      assert last !in Elems(init);
    }
  }

  lemma {:induction false} Enumeration<T>(all: set<T>) returns (e: seq<T>)
    ensures NoDup(e) && Elems(e) == all
  {
    e := [];
    if x :| x in all {
      var tail := Enumeration(all - {x});
      e := [x] + tail;
      assert Elems(e) == {x} + Elems(tail);
    }
  }

  /** A distinct sequence drawn from a finite set begins an enumeration of that set. */
  lemma BeginsEnumeration<T>(s: seq<T>, all: set<T>) returns (e: seq<T>)
    requires NoDup(s) && Elems(s) <= all
    ensures s <= e && NoDup(e) && Elems(e) == all
  {
    var tail := Enumeration(all - Elems(s));
    assert forall x :: x in tail ==> x in Elems(tail);
    NoDupConcat(s, tail);
    e := s + tail;
  }

  // ---- the players' slow query ----

  /** The objects in the same region as (x, y). */
  function SameRegion(objects: map<uint32, WorldObject>, x: int32, y: int32): set<WorldObject> {
    set id | id in objects && RegionOf(objects[id]) == CoordToRegionIndex(x, y) :: objects[id]
  }

  /**
   * What the slow query shows for region index (rx, ry). The index is used as if it were a pair of coordinates, and the
   * objects of the central region come twice: on their own and again as part of the window.
   */
  function SlowVisible(objects: map<uint32, WorldObject>, rx: int32, ry: int32): multiset<WorldObject> {
    if InWorld(rx, ry) then multiset(SameRegion(objects, rx, ry)) + multiset(VisibleFrom(objects, rx, ry)) else multiset{}
  }

  /** Nothing is shown twice exactly when the central region is empty. */
  lemma ShownOnceIff(objects: map<uint32, WorldObject>, rx: int32, ry: int32)
    requires InWorld(rx, ry)
    ensures (forall o :: SlowVisible(objects, rx, ry)[o] <= 1) <==> SameRegion(objects, rx, ry) == {}
    ensures forall o :: o in SameRegion(objects, rx, ry) ==> SlowVisible(objects, rx, ry)[o] == 2
  {
    forall o | o in SameRegion(objects, rx, ry)
      ensures o in VisibleFrom(objects, rx, ry)
    {
      var id :| id in objects && objects[id] == o && RegionOf(o) == CoordToRegionIndex(rx, ry);
      assert Sees(rx, ry, objects[id].x, objects[id].y);
    }
    if o :| o in SameRegion(objects, rx, ry) {
      assert SlowVisible(objects, rx, ry)[o] == 2;
    }
  }

  lemma CentreHolds(w: World, x: int32, y: int32)
    requires w.Valid() && InWorld(x, y)
    ensures var i := CoordToRegionIndex(x, y); Held(w.regions[i.0][i.1].visibleObjects) == SameRegion(w.objects, x, y)
  {
    var (i, j) := CoordToRegionIndex(x, y);
    assert w.regions[i][j].visibleObjects == InRegion(w.objects, i, j);
    forall o | o in SameRegion(w.objects, x, y)
      ensures o in Held(w.regions[i][j].visibleObjects)
    {
      var id :| id in w.objects && w.objects[id] == o;
      assert id in InRegion(w.objects, i, j);
    }
  }

  lemma AnswersNothing(fn: Callback, seen: seq<WorldObject>)
    ensures Answers(fn, seen, [], false)
  {
  }

  /** A no during the visit of the central region ends only that visit; a no afterwards ends the query. */
  method ForEachVisibleObjectForPlayer(w: World, player: Player, fn: Callback)
    returns (centre: seq<WorldObject>, window: seq<WorldObject>, stoppedFirst: bool, stopped: bool)
    requires w.Valid()
    ensures Answers(fn, [], centre, stoppedFirst) && Answers(fn, centre, window, stopped)
    ensures multiset(centre + window) <= SlowVisible(w.objects, player.RegionIndex().0, player.RegionIndex().1)
    ensures !stopped && InWorld(player.RegionIndex().0, player.RegionIndex().1) ==>
              multiset(window) == multiset(VisibleFrom(w.objects, player.RegionIndex().0, player.RegionIndex().1))
    ensures !stoppedFirst && !stopped ==>
              multiset(centre + window) == SlowVisible(w.objects, player.RegionIndex().0, player.RegionIndex().1)
  {
    hide SameRegion, VisibleFrom, HeldBy, Window, Column, Sees, Answers, NoDup;
    var (regionX, regionY) := CoordToRegionIndex(player.x, player.y);
    var current := w.GetRegion(regionX, regionY);
    if current.None? {
      AnswersNothing(fn, []);
      return [], [], false, false;
    }
    RegionKeyed(w, current.value);
    centre, stoppedFirst := current.value.ForEachVisibleObject(fn, []);
    WindowOnGrid(w, current.value);
    window, stopped := VisitRegions(w, current.value.surroundingRegions, fn, centre);
    CentreHolds(w, regionX, regionY);
    WindowHolds(w, regionX, regionY);
    DistinctCount(centre);
    DistinctCount(window);
    SubsetOfMultiset(Elems(centre), SameRegion(w.objects, regionX, regionY));
    SubsetOfMultiset(Elems(window), VisibleFrom(w.objects, regionX, regionY));
  }

  lemma SubsetOfMultiset<T>(s: set<T>, t: set<T>)
    requires s <= t
    ensures multiset(s) <= multiset(t)
  {
  }

  /** Wherever an in-world player stands, the slow query shows the surroundings of the one region (64, 128). */
  lemma SlowQueryIsFixed(objects: map<uint32, WorldObject>, x: int32, y: int32)
    requires InWorld(x, y)
    ensures var i := CoordToRegionIndex(x, y); SlowVisible(objects, i.0, i.1) == SlowVisible(objects, OFFSET_X, OFFSET_Y)
  {
    var (rx, ry) := CoordToRegionIndex(x, y);
    IndicesAsCoordinates(rx, ry);
    IndicesAsCoordinates(OFFSET_X, OFFSET_Y);
  }

  /**
   * Which objects that is: those of the square from 0 to 2047 on both axes are shown twice, those of the eight squares around it
   * once, and no others.
   */
  lemma SlowQueryShows(objects: map<uint32, WorldObject>, x: int32, y: int32, id: uint32)
    requires InWorld(x, y) && id in objects
    ensures var i, o := CoordToRegionIndex(x, y), objects[id];
            SlowVisible(objects, i.0, i.1)[o] ==
            if 0 <= o.x < 2048 && 0 <= o.y < 2048 then 2 else if -2048 <= o.x < 4096 && -2048 <= o.y < 4096 then 1 else 0
  {
    hide Sees, InWorld, CoordToRegionIndex;
    var (rx, ry) := CoordToRegionIndex(x, y);
    var o := objects[id];
    IndexSees(x, y, o.x, o.y);
    assert o in SameRegion(objects, rx, ry) <==> RegionOf(o) == CoordToRegionIndex(rx, ry);
    assert o in VisibleFrom(objects, rx, ry) <==> Sees(rx, ry, o.x, o.y);
  }

  /** A region index used as coordinates sees the nine squares around the origin's. */
  lemma IndexSees(x: int32, y: int32, ox: int32, oy: int32)
    requires InWorld(x, y)
    ensures var i := CoordToRegionIndex(x, y);
            && InWorld(i.0, i.1)
            && (CoordToRegionIndex(ox, oy) == CoordToRegionIndex(i.0, i.1) <==> 0 <= ox < 2048 && 0 <= oy < 2048)
            && (Sees(i.0, i.1, ox, oy) <==> -2048 <= ox < 4096 && -2048 <= oy < 4096)
  {
    var (rx, ry) := CoordToRegionIndex(x, y);
    IndicesAsCoordinates(rx, ry);
  }

  /** The positions the slow query looks at are those in sight of the player exactly when the player is in region (64, 128). */
  lemma SlowQueryIsTrueWindowIff(x: int32, y: int32)
    requires InWorld(x, y)
    ensures var i := CoordToRegionIndex(x, y);
            (forall ox: int32, oy: int32 :: Sees(i.0, i.1, ox, oy) <==> Sees(x, y, ox, oy)) <==> i == (OFFSET_X, OFFSET_Y)
  {
    var (rx, ry) := CoordToRegionIndex(x, y);
    IndicesAsCoordinates(rx, ry);
    if (rx, ry) != (OFFSET_X, OFFSET_Y) {
      FarSide(x, y);
    }
  }

  lemma FarSide(x: int32, y: int32)
    requires InWorld(x, y) && CoordToRegionIndex(x, y) != (OFFSET_X, OFFSET_Y)
    ensures exists ox: int32, oy: int32 :: Sees(x, y, ox, oy) && !Near((OFFSET_X, OFFSET_Y), CoordToRegionIndex(ox, oy))
  {
    var (rx, ry) := CoordToRegionIndex(x, y);
    if -1 <= rx - OFFSET_X <= 1 && -1 <= ry - OFFSET_Y <= 1 {
      var ox := if rx > OFFSET_X then x + REGION_SIZE else if rx < OFFSET_X then x - REGION_SIZE else x;
      var oy := if ry > OFFSET_Y then y + REGION_SIZE else if ry < OFFSET_Y then y - REGION_SIZE else y;
      assert Sees(x, y, ox, oy);
    } else {
      assert Sees(x, y, x, y);
    }
  }

  // ---- the query of a cached list ----

  predicate ObjectExists(o: WorldObject) {
    o.objectID > 0
  }

  function Existing(s: seq<WorldObject>): seq<WorldObject> {
    if |s| == 0 then [] else
      var tail := Existing(s[..|s| - 1]);
      if ObjectExists(s[|s| - 1]) then tail + [s[|s| - 1]] else tail
  }

  /** The filter keeps, in their order, exactly the objects whose ID is not zero. */
  lemma {:induction false} ExistingIsPositive(s: seq<WorldObject>)
    ensures forall o: WorldObject :: multiset(Existing(s))[o] == if o.objectID != 0 then multiset(s)[o] else 0
    ensures forall k :: 0 <= k < |s| ==> |Existing(s[..k])| <= |Existing(s)|
    ensures forall k :: 0 <= k < |s| && s[k].objectID != 0 ==>
              |Existing(s[..k])| < |Existing(s)| && Existing(s)[|Existing(s[..k])|] == s[k]
  {
    if |s| > 0 {
      var init, last := s[..|s| - 1], s[|s| - 1];
      assert s == init + [last];
      ExistingIsPositive(init);
      forall k | 0 <= k < |s|
        ensures |Existing(s[..k])| <= |Existing(s)|
        ensures s[k].objectID != 0 ==> |Existing(s[..k])| < |Existing(s)| && Existing(s)[|Existing(s[..k])|] == s[k]
      {
        if k < |init| {
          assert s[..k] == init[..k];
        } else {
          assert s[..k] == init;
        }
      }
    }
  }

  lemma {:induction false} ExistingLength(s: seq<WorldObject>)
    ensures if forall o :: o in s ==> ObjectExists(o) then Existing(s) == s else |Existing(s)| < |s|
  {
    if |s| > 0 {
      var init, last := s[..|s| - 1], s[|s| - 1];
      assert s == init + [last];
      ExistingLength(init);
    }
  }

  /** Nothing is lost by skipping objects without an ID exactly when there are none. */
  lemma ExistingIsAllIff(s: seq<WorldObject>)
    ensures multiset(Existing(s)) == multiset(s) <==> forall o :: o in s ==> ObjectExists(o)
  {
    ExistingLength(s);
    assert |multiset(Existing(s))| == |Existing(s)| && |multiset(s)| == |s|;
  }

  /** visited is what the slow query shows: one visit after another, the second starting whatever the first was told. */
  ghost predicate SlowAnswers(fn: Callback, visited: seq<WorldObject>, stopped: bool) {
    exists k, first, second :: 0 <= k <= |visited| && stopped == (first || second)
      && Answers(fn, [], visited[..k], first) && Answers(fn, visited[..k], visited[k..], second)
  }

  /** With a cache at hand, shows its existing objects in order until fn says no; otherwise runs the slow query. */
  method ForEachVisibleObjectCached(w: World, player: Player, fn: Callback)
    returns (visited: seq<WorldObject>, stopped: bool)
    requires w.Valid()
    ensures player.cache.Some? ==>
              Answers(fn, [], visited, stopped) && visited <= Existing(player.cache.value.objects)
    ensures player.cache.Some? && !stopped ==> visited == Existing(player.cache.value.objects)
    ensures player.cache.None? ==> SlowAnswers(fn, visited, stopped)
    ensures player.cache.None? ==>
              multiset(visited) <= SlowVisible(w.objects, player.RegionIndex().0, player.RegionIndex().1)
    ensures player.cache.None? && !stopped ==>
              multiset(visited) == SlowVisible(w.objects, player.RegionIndex().0, player.RegionIndex().1)
  {
    if player.cache.Some? {
      var objects := player.cache.value.objects;
      visited, stopped := [], false;
      for k := 0 to |objects|
        invariant visited == Existing(objects[..k]) && Answers(fn, [], visited, false)
      {
        var obj := objects[k];
        assert objects[..k + 1][..k] == objects[..k];
        ExistingPrefix(objects, k + 1);
        if !ObjectExists(obj) {
          continue;
        }
        AnswersStep(fn, [], visited, obj);
        assert [] + visited == visited;
        var go := fn(visited, obj);
        visited := visited + [obj];
        if !go {
          return visited, true;
        }
      }
      assert objects[..|objects|] == objects;
      return;
    }
    var centre, window, stoppedFirst, stoppedLater := ForEachVisibleObjectForPlayer(w, player, fn);
    visited, stopped := centre + window, stoppedFirst || stoppedLater;
    assert visited[..|centre|] == centre && visited[|centre|..] == window;
  }

  lemma {:induction false} ExistingPrefix(s: seq<WorldObject>, k: nat)
    requires k <= |s|
    ensures Existing(s[..k]) <= Existing(s)
  {
    if k < |s| {
      assert s[..|s| - 1][..k] == s[..k];
      ExistingPrefix(s[..|s| - 1], k);
    } else {
      assert s[..k] == s;
    }
  }
}
