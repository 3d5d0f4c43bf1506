/** Region indices of world coordinates. */
module Grid {
  import opened Integers

  const REGION_SIZE: int := 2048
  const OFFSET_X: int := 64
  const OFFSET_Y: int := 128
  const REGIONS_X: int := 160
  const REGIONS_Y: int := 241

  /** Reduction to 32 bits, two's complement. */
  function Wrap32(n: int): int32 {
    (n + 0x8000_0000) % 0x1_0000_0000 - 0x8000_0000
  }

  /** An arithmetic shift right by eleven is division by the region size, rounded down. */
  function ShiftRight(x: int32): int32 {
    x / REGION_SIZE
  }

  function CoordToRegionIndex(x: int32, y: int32): (r: (int32, int32)) {
    (ShiftRight(x) + OFFSET_X, ShiftRight(y) + OFFSET_Y)
  }

  predicate IsValidRegionIndex(rx: int32, ry: int32) {
    rx >= 0 && rx < REGIONS_X && ry >= 0 && ry < REGIONS_Y
  }

  /** The centre of a region. */
  function RegionIndexToCoord(rx: int32, ry: int32): (r: (int32, int32)) {
    (Wrap32((rx - OFFSET_X) * REGION_SIZE + REGION_SIZE / 2), Wrap32((ry - OFFSET_Y) * REGION_SIZE + REGION_SIZE / 2))
  }

  predicate InWorld(x: int32, y: int32) {
    var r := CoordToRegionIndex(x, y);
    IsValidRegionIndex(r.0, r.1)
  }

  /** Region indices that differ by at most one on each axis. */
  predicate Near(a: (int32, int32), b: (int32, int32)) {
    -1 <= a.0 - b.0 <= 1 && -1 <= a.1 - b.1 <= 1
  }

  /** Whether an object at (x2, y2) lies in the window seen from (x1, y1). */
  predicate Sees(x1: int32, y1: int32, x2: int32, y2: int32) {
    InWorld(x1, y1) && InWorld(x2, y2) && Near(CoordToRegionIndex(x1, y1), CoordToRegionIndex(x2, y2))
  }

  function Distance(a: int, b: int): (d: nat) {
    if a < b then b - a else a - b
  }

  /** The grid covers a rectangle that reaches one region row beyond the documented northern limit of 229376. */
  lemma InWorldIff(x: int32, y: int32)
    ensures InWorld(x, y) <==> -131072 <= x < 196608 && -262144 <= y < 231424
  {
  }

  /** Region (rx, ry) is the square of 2048 units whose south-west corner lies at 2048 times the index less the offset. */
  lemma RegionIff(x: int32, y: int32, rx: int32, ry: int32)
    ensures CoordToRegionIndex(x, y) == (rx, ry) <==>
            2048 * (rx - 64) <= x < 2048 * (rx - 63) && 2048 * (ry - 128) <= y < 2048 * (ry - 127)
  {
  }

  lemma SeesIff(x1: int32, y1: int32, x2: int32, y2: int32)
    ensures Sees(x1, y1, x2, y2) <==>
            && InWorld(x1, y1) && InWorld(x2, y2)
            && -1 <= x1 / 2048 - x2 / 2048 <= 1 && -1 <= y1 / 2048 - y2 / 2048 <= 1
  {
  }

  /** The middle of the square, on 32 bits. */
  lemma CentreIsMiddle(rx: int32, ry: int32)
    ensures var c := RegionIndexToCoord(rx, ry);
            && (c.0 - (2048 * (rx - 64) + 1024)) % 0x1_0000_0000 == 0
            && (c.1 - (2048 * (ry - 128) + 1024)) % 0x1_0000_0000 == 0
            && (IsValidRegionIndex(rx, ry) ==> c == (2048 * (rx - 64) + 1024, 2048 * (ry - 128) + 1024))
  {
    WrapCongruent((rx - 64) * 2048 + 1024);
    WrapCongruent((ry - 128) * 2048 + 1024);
  }

  lemma WrapCongruent(n: int)
    ensures (Wrap32(n) - n) % 0x1_0000_0000 == 0
  {
    var q := (n + 0x8000_0000) / 0x1_0000_0000;
    assert Wrap32(n) - n == 0x1_0000_0000 * -q;
  }

  lemma CentreIsInRegion(rx: int32, ry: int32)
    requires IsValidRegionIndex(rx, ry)
    ensures var c := RegionIndexToCoord(rx, ry); CoordToRegionIndex(c.0, c.1) == (rx, ry)
  {
  }

  lemma ShiftDistance(a: int32, b: int32)
    ensures Distance(a, b) <= 2048 ==> Distance(ShiftRight(a), ShiftRight(b)) <= 1
    ensures Distance(ShiftRight(a), ShiftRight(b)) <= 1 ==> Distance(a, b) <= 4095
  {
  }

  /** Sight is symmetric, reaches at least 2048 units on each axis and never beyond 4095 on either. */
  lemma SightBounds(x1: int32, y1: int32, x2: int32, y2: int32)
    requires InWorld(x1, y1) && InWorld(x2, y2)
    ensures Sees(x1, y1, x2, y2) <==> Sees(x2, y2, x1, y1)
    ensures Distance(x1, x2) <= 2048 && Distance(y1, y2) <= 2048 ==> Sees(x1, y1, x2, y2)
    ensures Distance(x1, x2) > 4095 || Distance(y1, y2) > 4095 ==> !Sees(x1, y1, x2, y2)
  {
    hide ShiftRight;
    ShiftDistance(x1, x2);
    ShiftDistance(y1, y2);
  }

  /** Neither bound can be improved. */
  lemma SightBoundsTight()
    ensures Distance(2047, 4096) == 2049 && InWorld(2047, 0) && InWorld(4096, 0) && !Sees(2047, 0, 4096, 0)
    ensures Distance(0, 4095) == 4095 && Sees(0, 0, 4095, 0)
  {
  }

  /** Region indices read as coordinates: every index of the grid falls into the one region (64, 128). */
  lemma IndicesAsCoordinates(rx: int32, ry: int32)
    requires IsValidRegionIndex(rx, ry)
    ensures CoordToRegionIndex(rx, ry) == (OFFSET_X, OFFSET_Y)
  {
  }
}
