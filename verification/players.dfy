/** A player and the snapshot of visible objects kept for it. */
module Players {
  import opened Grid
  import opened Integers
  import opened WorldIndex
  import opened Wrappers

  /** An immutable snapshot: when and for which region index it was taken, and what was in sight. */
  datatype VisibilityCache = VisibilityCache(objects: seq<WorldObject>, lastUpdate: int, regionX: int32, regionY: int32) {
    predicate IsStale(now: int, maxAge: int) {
      now - lastUpdate > maxAge
    }

    predicate IsValidForRegion(rx: int32, ry: int32) {
      regionX == rx && regionY == ry
    }
  }

  class Player {
    var x: int32
    var y: int32
    var cache: Option<VisibilityCache>

    constructor (x: int32, y: int32)
      ensures this.x == x && this.y == y && cache == None
    {
      this.x := x;
      this.y := y;
      cache := None;
    }

    function RegionIndex(): (int32, int32)
      reads `x, `y
    {
      CoordToRegionIndex(x, y)
    }

    method SetVisibilityCache(c: VisibilityCache)
      modifies `cache
      ensures cache == Some(c)
    {
      cache := Some(c);
    }

    method InvalidateVisibilityCache()
      modifies `cache
      ensures cache == None
    {
      cache := None;
    }
  }
}
