/** The world's object index: one global map, and one map per region of a grid whose neighbour lists are precomputed. */
module WorldIndex {
  import opened Grid
  import opened Integers
  import opened Wrappers

  /** An object that stays where it is for as long as it is in the world. */
  class WorldObject {
    const objectID: uint32
    const x: int32
    const y: int32

    constructor (objectID: uint32, x: int32, y: int32)
      ensures this.objectID == objectID && this.x == x && this.y == y
    {
      this.objectID := objectID;
      this.x := x;
      this.y := y;
    }
  }

  function RegionOf(o: WorldObject): (int32, int32) {
    CoordToRegionIndex(o.x, o.y)
  }

  // ---- visiting ----

  /** A callback's answer may depend on everything it was shown before. */
  type Callback = (seq<WorldObject>, WorldObject) -> bool

  ghost predicate NoDup<T>(s: seq<T>) {
    forall i, j :: 0 <= i < j < |s| ==> s[i] != s[j]
  }

  function Elems<T>(s: seq<T>): set<T> {
    set o | o in s
  }

  /** visited is what fn was shown after seen; it answered true each time, or false only on the last. */
  ghost predicate Answers(fn: Callback, seen: seq<WorldObject>, visited: seq<WorldObject>, stopped: bool) {
    && (stopped ==> |visited| > 0)
    && forall i :: 0 <= i < |visited| ==>
         (fn(seen + visited[..i], visited[i]) <==> !(stopped && i == |visited| - 1))
  }

  lemma AnswersStep(fn: Callback, seen: seq<WorldObject>, visited: seq<WorldObject>, o: WorldObject)
    requires Answers(fn, seen, visited, false)
    ensures Answers(fn, seen, visited + [o], !fn(seen + visited, o))
  {
    var s := visited + [o];
    forall i | 0 <= i < |s|
      ensures fn(seen + s[..i], s[i]) <==> !(!fn(seen + visited, o) && i == |s| - 1)
    {
      if i < |visited| {
        assert s[..i] == visited[..i];
      } else {
        assert s[..i] == visited;
      }
    }
  }

  /** Every answer but the last was yes, and a visit that was not stopped ends on one as well. */
  lemma AnswersIff(fn: Callback, seen: seq<WorldObject>, visited: seq<WorldObject>, stopped: bool)
    ensures Answers(fn, seen, visited, stopped) <==>
            if |visited| == 0 then !stopped else
            var last := |visited| - 1;
            && (forall i :: 0 <= i < last ==> fn(seen + visited[..i], visited[i]))
            && (fn(seen + visited[..last], visited[last]) <==> !stopped)
  {
    if |visited| > 0 {
      var last := |visited| - 1;
      if Answers(fn, seen, visited, stopped) {
        assert fn(seen + visited[..last], visited[last]) <==> !(stopped && last == |visited| - 1);
      }
    }
  }

  /** Two visits one after the other are one visit. */
  lemma AnswersConcat(fn: Callback, seen: seq<WorldObject>, s: seq<WorldObject>, t: seq<WorldObject>, stopped: bool)
    requires Answers(fn, seen, s, false) && Answers(fn, seen + s, t, stopped)
    ensures Answers(fn, seen, s + t, stopped)
  {
    var u := s + t;
    forall i | 0 <= i < |u|
      ensures fn(seen + u[..i], u[i]) <==> !(stopped && i == |u| - 1)
    {
      if i < |s| {
        assert u[..i] == s[..i];
      } else {
        assert seen + u[..i] == seen + s + t[..i - |s|];
      }
    }
  }

  // ---- regions ----

  class Region {
    const rx: int32
    const ry: int32
    var visibleObjects: map<uint32, WorldObject>
    var surroundingRegions: seq<Region>

    constructor (rx: int32, ry: int32)
      ensures this.rx == rx && this.ry == ry && visibleObjects == map[] && surroundingRegions == []
    {
      this.rx := rx;
      this.ry := ry;
      visibleObjects := map[];
      surroundingRegions := [];
    }

    method AddVisibleObject(obj: WorldObject)
      modifies `visibleObjects
      ensures visibleObjects == old(visibleObjects)[obj.objectID := obj]
    {
      visibleObjects := visibleObjects[obj.objectID := obj];
    }

    method RemoveVisibleObject(objectID: uint32)
      modifies `visibleObjects
      ensures visibleObjects == old(visibleObjects) - {objectID}
    {
      visibleObjects := visibleObjects - {objectID};
    }

    method SetSurroundingRegions(regions: seq<Region>)
      modifies `surroundingRegions
      ensures surroundingRegions == regions
    {
      surroundingRegions := regions;
    }

    /** Shows the objects in some order, each once, until fn says no. */
    method ForEachVisibleObject(fn: Callback, seen: seq<WorldObject>) returns (visited: seq<WorldObject>, stopped: bool)
      requires Keyed(visibleObjects)
      ensures NoDup(visited) && Answers(fn, seen, visited, stopped)
      ensures Elems(visited) <= Held(visibleObjects)
      ensures !stopped ==> Elems(visited) == Held(visibleObjects)
    {
      visited, stopped := [], false;
      ghost var m := visibleObjects;
      var todo := visibleObjects.Keys;
      while todo != {}
        invariant todo <= m.Keys
        invariant NoDup(visited) && Answers(fn, seen, visited, false)
        invariant forall o :: o in visited <==> o in Held(m) && o.objectID !in todo
        decreases |todo|
      {
        var id :| id in todo;
        var obj := visibleObjects[id];
        var go := fn(seen + visited, obj);
        AnswersStep(fn, seen, visited, obj);
        visited := visited + [obj];
        todo := todo - {id};
        if !go {
          return visited, true;
        }
      }
    }
  }

  /** Each object is stored under its own ID. */
  ghost predicate Keyed(m: map<uint32, WorldObject>) {
    forall id :: id in m ==> m[id].objectID == id
  }

  function Held(m: map<uint32, WorldObject>): set<WorldObject> {
    m.Values
  }

  // ---- the grid ----

  type RegionGrid = seq<seq<Region>>

  /** A full grid in which every region knows its own place. */
  ghost predicate Gridded(g: RegionGrid) {
    && |g| == REGIONS_X
    && (forall i :: 0 <= i < REGIONS_X ==> |g[i]| == REGIONS_Y)
    && forall i, j :: 0 <= i < REGIONS_X && 0 <= j < REGIONS_Y ==> g[i][j].rx == i && g[i][j].ry == j
  }

  /** The region at an index, as a list: empty off the grid. */
  function At(g: RegionGrid, rx: int, ry: int): (s: seq<Region>)
    requires Gridded(g)
  {
    if 0 <= rx < REGIONS_X && 0 <= ry < REGIONS_Y then [g[rx][ry]] else []
  }

  /** The first n of the three regions next to one another along the second axis around (rx, ry). */
  function Column(g: RegionGrid, rx: int, ry: int, n: nat): seq<Region>
    requires Gridded(g)
  {
    if n == 0 then [] else Column(g, rx, ry, n - 1) + At(g, rx, ry + n - 2)
  }

  /** The first n of the three columns of the window around (rx, ry). */
  function Window(g: RegionGrid, rx: int, ry: int, n: nat): seq<Region>
    requires Gridded(g)
  {
    if n == 0 then [] else Window(g, rx, ry, n - 1) + Column(g, rx + n - 2, ry, 3)
  }

  lemma ColumnSteps(g: RegionGrid, rx: int, ry: int, n: nat)
    requires Gridded(g)
    ensures Column(g, rx, ry, 0) == []
    ensures Column(g, rx, ry, n + 1) == Column(g, rx, ry, n) + At(g, rx, ry + n - 1)
  {
  }

  lemma WindowSteps(g: RegionGrid, rx: int, ry: int, n: nat)
    requires Gridded(g)
    ensures Window(g, rx, ry, 0) == []
    ensures Window(g, rx, ry, n + 1) == Window(g, rx, ry, n) + Column(g, rx + n - 1, ry, 3)
  {
  }

  // ---- the world ----

  class World {
    var regions: seq<seq<Region>>
    var objects: map<uint32, WorldObject>

    function AllRegions(): set<Region>
      reads `regions
    {
      set i, j | 0 <= i < |regions| && 0 <= j < |regions[i]| :: regions[i][j]
    }

    /** Every region's neighbour list is its window. */
    ghost predicate Linked()
      requires Gridded(regions)
      reads `regions, AllRegions()`surroundingRegions
    {
      forall i, j {:trigger regions[i][j].surroundingRegions} :: 0 <= i < REGIONS_X && 0 <= j < REGIONS_Y ==>
        regions[i][j].surroundingRegions == Window(regions, i, j, 3)
    }

    /** The two indices agree: each region holds exactly the objects whose location lies in it. */
    ghost predicate Coupled()
      requires Gridded(regions)
      reads `regions, `objects, AllRegions()`visibleObjects
    {
      && Keyed(objects)
      && (forall id :: id in objects ==> InWorld(objects[id].x, objects[id].y))
      && forall i, j :: 0 <= i < REGIONS_X && 0 <= j < REGIONS_Y ==>
           regions[i][j].visibleObjects == InRegion(objects, i, j)
    }

    ghost predicate Valid()
      reads `regions, `objects, AllRegions()`visibleObjects, AllRegions()`surroundingRegions
    {
      Gridded(regions) && Linked() && Coupled()
    }

    constructor ()
      ensures Valid() && objects == map[] && fresh(AllRegions())
    {
      regions := [];
      objects := map[];
      new;
      Initialize();
    }

    method Initialize()
      modifies this
      ensures Gridded(regions) && Linked() && fresh(AllRegions())
      ensures objects == old(objects)
      ensures forall i, j :: 0 <= i < REGIONS_X && 0 <= j < REGIONS_Y ==> regions[i][j].visibleObjects == map[]
    {
      regions := [];
      for rx := 0 to REGIONS_X
        invariant |regions| == rx && objects == old(objects)
        invariant forall i :: 0 <= i < rx ==> |regions[i]| == REGIONS_Y
        invariant forall i, j :: 0 <= i < rx && 0 <= j < REGIONS_Y ==> fresh(regions[i][j]) && regions[i][j].visibleObjects == map[]
        invariant forall i, j :: 0 <= i < rx && 0 <= j < REGIONS_Y ==> regions[i][j].rx == i && regions[i][j].ry == j
      {
        var column := NewColumn(rx);
        regions := regions + [column];
      }
      for rx := 0 to REGIONS_X
        invariant Gridded(regions) && objects == old(objects)
        invariant forall i, j :: 0 <= i < REGIONS_X && 0 <= j < REGIONS_Y ==> fresh(regions[i][j]) && regions[i][j].visibleObjects == map[]
        invariant forall i, j {:trigger regions[i][j].surroundingRegions} :: 0 <= i < rx && 0 <= j < REGIONS_Y ==>
                    regions[i][j].surroundingRegions == Window(regions, i, j, 3)
      {
        LinkColumn(rx);
      }
    }

    method NewColumn(rx: int32) returns (column: seq<Region>)
      requires 0 <= rx < REGIONS_X
      ensures |column| == REGIONS_Y
      ensures forall j :: 0 <= j < REGIONS_Y ==> fresh(column[j]) && column[j].visibleObjects == map[]
      ensures forall j :: 0 <= j < REGIONS_Y ==> column[j].rx == rx && column[j].ry == j
    {
      column := [];
      for ry := 0 to REGIONS_Y
        invariant |column| == ry
        invariant forall j :: 0 <= j < ry ==> fresh(column[j]) && column[j].visibleObjects == map[]
        invariant forall j :: 0 <= j < ry ==> column[j].rx == rx && column[j].ry == j
      {
        var region := new Region(rx, ry);
        column := column + [region];
      }
    }

    method LinkColumn(rx: int32)
      requires Gridded(regions) && 0 <= rx < REGIONS_X
      modifies (set j | 0 <= j < REGIONS_Y :: regions[rx][j])`surroundingRegions
      ensures forall j {:trigger regions[rx][j].surroundingRegions} :: 0 <= j < REGIONS_Y ==>
                regions[rx][j].surroundingRegions == Window(regions, rx, j, 3)
    {
      for ry := 0 to REGIONS_Y
        invariant forall j {:trigger regions[rx][j].surroundingRegions} :: 0 <= j < ry ==>
                    regions[rx][j].surroundingRegions == Window(regions, rx, j, 3)
      {
        var region := regions[rx][ry];
        var surrounding := GetSurroundingRegions(rx, ry);
        region.SetSurroundingRegions(surrounding);
      }
    }

    method GetSurroundingRegions(rx: int32, ry: int32) returns (surrounding: seq<Region>)
      requires Gridded(regions) && IsValidRegionIndex(rx, ry)
      ensures surrounding == Window(regions, rx, ry, 3)
    {
      hide Window, Column;
      surrounding := [];
      WindowSteps(regions, rx, ry, 0);
      for dx := -1 to 2
        invariant surrounding == Window(regions, rx, ry, dx + 1)
      {
        WindowSteps(regions, rx, ry, dx + 1);
        ColumnSteps(regions, rx + dx, ry, 0);
        for dy := -1 to 2
          invariant surrounding == Window(regions, rx, ry, dx + 1) + Column(regions, rx + dx, ry, dy + 1)
        {
          ColumnSteps(regions, rx + dx, ry, dy + 1);
          var nx, ny := rx + dx, ry + dy;
          if IsValidRegionIndex(nx, ny) {
            surrounding := surrounding + [regions[nx][ny]];
          }
        }
      }
    }

    method GetRegion(x: int32, y: int32) returns (r: Option<Region>)
      requires Gridded(regions)
      ensures r.Some? <==> InWorld(x, y)
      ensures r.Some? ==> var i := CoordToRegionIndex(x, y); r.value == regions[i.0][i.1]
    {
      var (rx, ry) := CoordToRegionIndex(x, y);
      if !IsValidRegionIndex(rx, ry) {
        return None;
      }
      return Some(regions[rx][ry]);
    }

    /**
     * An object off the grid is refused and changes nothing. An accepted one keeps the two indices in agreement unless its
     * ID was already taken by an object of another region, which then lingers there.
     */
    method AddObject(obj: WorldObject) returns (ok: bool)
      requires Valid()
      modifies `objects, AllRegions()`visibleObjects
      ensures ok <==> InWorld(obj.x, obj.y)
      ensures !ok ==> objects == old(objects) && Valid()
      ensures ok ==> objects == old(objects)[obj.objectID := obj]
      ensures ok ==> forall i, j :: 0 <= i < REGIONS_X && 0 <= j < REGIONS_Y ==>
                regions[i][j].visibleObjects ==
                if (i, j) == RegionOf(obj) then old(regions[i][j].visibleObjects)[obj.objectID := obj]
                else old(regions[i][j].visibleObjects)
      ensures Gridded(regions) && Linked()
      ensures obj.objectID !in old(objects) ==> Valid()
      ensures ok ==> (Coupled() <==> obj.objectID !in old(objects) || RegionOf(old(objects)[obj.objectID]) == RegionOf(obj))
    {
      var region := GetRegion(obj.x, obj.y);
      if region.None? {
        return false;
      }
      ghost var before := objects;
      objects := objects[obj.objectID := obj];
      StoreIn(region.value, obj);
      CoupledAfterAdd(before, obj);
      return true;
    }

    method StoreIn(region: Region, obj: WorldObject)
      requires Gridded(regions) && InWorld(obj.x, obj.y)
      requires var i := RegionOf(obj); region == regions[i.0][i.1]
      modifies region`visibleObjects
      ensures forall i, j :: 0 <= i < REGIONS_X && 0 <= j < REGIONS_Y ==>
                regions[i][j].visibleObjects ==
                if (i, j) == RegionOf(obj) then old(regions[i][j].visibleObjects)[obj.objectID := obj]
                else old(regions[i][j].visibleObjects)
    {
      region.AddVisibleObject(obj);
    }

    method DeleteFrom(region: Region, obj: WorldObject)
      requires Gridded(regions) && InWorld(obj.x, obj.y)
      requires var i := RegionOf(obj); region == regions[i.0][i.1]
      modifies region`visibleObjects
      ensures forall i, j :: 0 <= i < REGIONS_X && 0 <= j < REGIONS_Y ==>
                regions[i][j].visibleObjects ==
                if (i, j) == RegionOf(obj) then old(regions[i][j].visibleObjects) - {obj.objectID}
                else old(regions[i][j].visibleObjects)
    {
      region.RemoveVisibleObject(obj.objectID);
    }

    lemma OnGrid(o: WorldObject)
      requires InWorld(o.x, o.y)
      ensures 0 <= RegionOf(o).0 < REGIONS_X && 0 <= RegionOf(o).1 < REGIONS_Y
    {
    }

    lemma CoupledAfterAdd(before: map<uint32, WorldObject>, obj: WorldObject)
      requires Gridded(regions) && Keyed(before) && InWorld(obj.x, obj.y)
      requires forall id :: id in before ==> InWorld(before[id].x, before[id].y)
      requires objects == before[obj.objectID := obj]
      requires forall i, j :: 0 <= i < REGIONS_X && 0 <= j < REGIONS_Y ==>
        regions[i][j].visibleObjects ==
        if (i, j) == RegionOf(obj) then InRegion(before, i, j)[obj.objectID := obj] else InRegion(before, i, j)
      ensures Coupled() <==> obj.objectID !in before || RegionOf(before[obj.objectID]) == RegionOf(obj)
    {
      hide InRegion, CoordToRegionIndex;
      forall i, j | 0 <= i < REGIONS_X && 0 <= j < REGIONS_Y
        ensures regions[i][j].visibleObjects == InRegion(objects, i, j) <==>
                (i, j) == RegionOf(obj) || obj.objectID !in before || RegionOf(before[obj.objectID]) != (i, j)
      {
        InRegionUpdate(before, obj, i, j);
      }
      if obj.objectID in before && RegionOf(before[obj.objectID]) != RegionOf(obj) {
        var (i, j) := RegionOf(before[obj.objectID]);
        OnGrid(before[obj.objectID]);
        assert regions[i][j].visibleObjects != InRegion(objects, i, j);
      }
    }

    lemma CoupledAfterRemove(before: map<uint32, WorldObject>, id: uint32)
      requires Gridded(regions) && Keyed(before) && id in before
      requires forall k :: k in before ==> InWorld(before[k].x, before[k].y)
      requires objects == before - {id}
      requires forall i, j :: 0 <= i < REGIONS_X && 0 <= j < REGIONS_Y ==>
        regions[i][j].visibleObjects ==
        if (i, j) == RegionOf(before[id]) then InRegion(before, i, j) - {id} else InRegion(before, i, j)
      ensures Coupled()
    {
      forall i, j | 0 <= i < REGIONS_X && 0 <= j < REGIONS_Y
        ensures regions[i][j].visibleObjects == InRegion(objects, i, j)
      {
        InRegionRemove(before, id, i, j);
      }
    }

    method RemoveObject(objectID: uint32)
      requires Valid()
      modifies `objects, AllRegions()`visibleObjects
      ensures Valid()
      ensures objects == old(objects) - {objectID}
    {
      hide World.Linked, InRegion, CoordToRegionIndex;
      if objectID !in objects {
        return;
      }
      ghost var before := objects;
      var obj := objects[objectID];
      objects := objects - {objectID};
      var region := GetRegion(obj.x, obj.y);
      if region.Some? {
        DeleteFrom(region.value, obj);
      }
      CoupledAfterRemove(before, objectID);
    }
  }

  /** The objects of m whose location lies in region (i, j). */
  function InRegion(m: map<uint32, WorldObject>, i: int, j: int): map<uint32, WorldObject> {
    map id | id in m && RegionOf(m[id]) == (i, j) :: m[id]
  }

  lemma InRegionUpdate(m: map<uint32, WorldObject>, o: WorldObject, i: int, j: int)
    ensures var m' := m[o.objectID := o];
            InRegion(m', i, j) ==
            if (i, j) == RegionOf(o) then InRegion(m, i, j)[o.objectID := o] else InRegion(m, i, j) - {o.objectID}
    ensures InRegion(m, i, j) == InRegion(m, i, j) - {o.objectID} <==>
            o.objectID !in m || RegionOf(m[o.objectID]) != (i, j)
  {
    if o.objectID in m && RegionOf(m[o.objectID]) == (i, j) {
      assert o.objectID in InRegion(m, i, j);
    }
  }

  lemma InRegionRemove(m: map<uint32, WorldObject>, id: uint32, i: int, j: int)
    requires id in m
    ensures InRegion(m - {id}, i, j) ==
            if (i, j) == RegionOf(m[id]) then InRegion(m, i, j) - {id} else InRegion(m, i, j)
  {
  }
}
