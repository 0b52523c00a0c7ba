/** Room boundaries and the list of room ids, shared by the wall passes. */
module Boundary {
  import opened Grid

  /** Every 4-neighbour of `p` is on the grid and belongs to room `rid`
      (the cross erosion with border value 0). */
  predicate Interior(region: array2<int>, rid: int, p: Pos)
    reads region
  {
    && Inside(region, Step(p, North)) && Get(region, Step(p, North)) == rid
    && Inside(region, Step(p, South)) && Get(region, Step(p, South)) == rid
    && Inside(region, Step(p, West)) && Get(region, Step(p, West)) == rid
    && Inside(region, Step(p, East)) && Get(region, Step(p, East)) == rid
  }

  /** A boundary pixel of room `rid`: in the room, with a 4-neighbour that
      is off the grid or in another room. */
  predicate IsBoundary(region: array2<int>, rid: int, p: Pos)
    reads region
  {
    Inside(region, p) && Get(region, p) == rid && !Interior(region, rid, p)
  }

  /** `get_boundary_mask(rid)`: all false when the room has no pixel,
      otherwise the room mask minus its erosion. */
  method BoundaryMask(region: array2<int>, rid: int) returns (mask: array2<bool>)
    ensures fresh(mask) && SameShape(mask, region)
    ensures forall p :: Inside(mask, p) ==> (Get(mask, p) <==> IsBoundary(region, rid, p))
  {
    if |Cells(region, rid)| == 0 {
      mask := new bool[region.Length0, region.Length1]((x, y) => false);
      forall p | Inside(mask, p)
        ensures !IsBoundary(region, rid, p)
      {
        assert Get(region, p) == rid ==> p in Cells(region, rid);
      }
    } else {
      mask := new bool[region.Length0, region.Length1]((x, y) reads region
        requires 0 <= x < region.Length0 && 0 <= y < region.Length1 => IsBoundary(region, rid, (x, y)));
    }
  }

  /** The ids the pixels of the map carry, other than 0. */
  function IdSet(region: array2<int>): (s: set<int>)
    reads region
    ensures forall x :: x in s <==> x != 0 && exists p :: Inside(region, p) && Get(region, p) == x
  {
    set p | p in AllPixels(region.Length0, region.Length1) && Get(region, p) != 0 :: Get(region, p)
  }

  /** A set of integers in increasing order. */
  function Sorted(s: set<int>): (r: seq<int>)
    ensures forall x :: x in r <==> x in s
    ensures forall i, j :: 0 <= i < j < |r| ==> r[i] < r[j]
    decreases |s|
  {
    if s == {} then []
    else
      var m := Least(s);
      assert s - {m} < s;
      [m] + Sorted(s - {m})
  }

  /** The room ids `np.unique(region_id_map)` lists after dropping 0: every
      id on the map exactly once, in increasing order. */
  function RoomIdList(region: array2<int>): (ids: seq<int>)
    reads region
    ensures forall x :: x in ids <==> x != 0 && exists p :: Inside(region, p) && Get(region, p) == x
    ensures forall i, j :: 0 <= i < j < |ids| ==> ids[i] < ids[j]
  {
    Sorted(IdSet(region))
  }

  /** The region map holds no negative id, as `extract_rooms` produces it. */
  ghost predicate NonNegative(region: array2<int>)
    reads region
  {
    forall p :: Inside(region, p) ==> Get(region, p) >= 0
  }

  /** `vis` is the set of visited pixels, and all of them are wall pixels. */
  ghost predicate VisMatch(visited: array2<bool>, vis: set<Pos>, wall: array2<int>)
    reads visited, wall
  {
    (forall p :: Inside(visited, p) ==> (Get(visited, p) <==> p in vis)) && vis <= Cells(wall, 1)
  }

  /** Wall pixels carry id 0 in the region map, as on `extract_rooms` output
      with the wall mask taken from wall-label code 2. */
  ghost predicate WallsUnlabelled(region: array2<int>, wall: array2<int>)
    reads region, wall
    requires SameShape(region, wall)
  {
    forall q :: Inside(wall, q) && Get(wall, q) == 1 ==> Get(region, q) == 0
  }

  /** `bound` marks exactly the boundary pixels of room `rid`. */
  ghost predicate MarksBoundary(bound: array2<bool>, region: array2<int>, rid: int)
    reads bound, region
  {
    forall q :: Inside(bound, q) ==> (Get(bound, q) <==> IsBoundary(region, rid, q))
  }

  /** A marked pixel is a boundary pixel. */
  lemma Marked(bound: array2<bool>, region: array2<int>, rid: int, q: Pos)
    requires MarksBoundary(bound, region, rid) && Inside(bound, q) && Get(bound, q)
    ensures IsBoundary(region, rid, q)
  {
  }
}
