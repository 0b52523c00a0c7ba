/** Room segmentation (`extract_rooms`): the rooms of a floor-plan label
    grid are the 4-connected components of the pixels whose code is not
    excluded; each room gets its pixel count and a room type taken from
    its most frequent code. */
module Rooms {
  import opened Grid
  import opened Components

  /** The codes that never belong to a room: {0, 1, 2, 8, 50}. */
  predicate Excluded(c: int)
  {
    c == 0 || c == 1 || c == 2 || c == 8 || c == 50
  }

  datatype Room = Room(id: int, area: int, roomType: string)

  /** The eligibility mask: true exactly where the code is not excluded. */
  method Eligibility(labels: array2<int>) returns (mask: array2<bool>)
    ensures SameShape(mask, labels)
    ensures forall p :: Inside(mask, p) ==> (Get(mask, p) <==> !Excluded(Get(labels, p)))
  {
    mask := new bool[labels.Length0, labels.Length1]((x, y) reads labels
      requires 0 <= x < labels.Length0 && 0 <= y < labels.Length1 => !Excluded(labels[x, y]));
  }

  /** The area of a room: the number of pixels carrying its id. */
  function Area(region: array2<int>, rid: int): nat
    reads region
  {
    |Cells(region, rid)|
  }

  /** How many pixels of room `rid` carry code `c`. */
  function CodeCount(labels: array2<int>, region: array2<int>, rid: int, c: int): nat
    reads labels, region
    requires SameShape(labels, region)
  {
    |set p | p in Cells(region, rid) && Get(labels, p) == c|
  }

  /** The codes present in room `rid` with their pixel counts (`np.unique` with counts). */
  function Histogram(labels: array2<int>, region: array2<int>, rid: int): (hist: map<int, nat>)
    reads labels, region
    requires SameShape(labels, region)
    ensures forall c :: c in hist <==> exists p :: p in Cells(region, rid) && Get(labels, p) == c
    ensures forall c :: c in hist ==> hist[c] == CodeCount(labels, region, rid, c) && hist[c] >= 1
  {
    var codes := set p | p in Cells(region, rid) :: Get(labels, p);
    var hist := map c | c in codes :: CodeCount(labels, region, rid, c);
    assert forall c :: c in hist ==> hist[c] >= 1 by {
      forall c | c in hist
        ensures CodeCount(labels, region, rid, c) >= 1
      {
        var p :| p in Cells(region, rid) && Get(labels, p) == c;
        var same := set q | q in Cells(region, rid) && Get(labels, q) == c;
        assert p in same;
        assert {p} <= same;
      }
    }
    hist
  }

  /** `c` is a code that may type a room. */
  predicate Candidate(hist: map<int, nat>, c: int)
  {
    c in hist && !Excluded(c)
  }

  /** `c` is a most frequent candidate code, and the smallest of those. */
  predicate IsMain(hist: map<int, nat>, c: int)
  {
    Candidate(hist, c) &&
    forall c' :: c' in hist && Candidate(hist, c') ==> hist[c'] < hist[c] || (hist[c'] == hist[c] && c <= c')
  }

  lemma MainUnique(hist: map<int, nat>, c: int, c': int)
    requires IsMain(hist, c) && IsMain(hist, c')
    ensures c == c'
  {
  }

  lemma {:induction false} MainExists(hist: map<int, nat>)
    requires exists c :: c in hist && !Excluded(c)
    ensures exists c :: IsMain(hist, c)
  {
    var c0 :| c0 in hist && !Excluded(c0);
    var counts := set c | c in hist && Candidate(hist, c) :: hist[c];
    assert hist[c0] in counts;
    MaxExists(counts);
    var top :| top in counts && forall q :: q in counts ==> q <= top;
    var best := set c | c in hist && Candidate(hist, c) && hist[c] == top;
    var w :| w in hist && Candidate(hist, w) && hist[w] == top;
    assert w in best;
    MinExists(best);
    var m :| m in best && forall q :: q in best ==> m <= q;
    assert IsMain(hist, m) by {
      forall c' | Candidate(hist, c')
        ensures hist[c'] < hist[m] || (hist[c'] == hist[m] && m <= c')
      {
        assert hist[c'] in counts;
        if hist[c'] == top {
          assert c' in best;
        }
      }
    }
  }

  /** The main category of a room: its most frequent code outside the
      excluded ones, ties going to the smallest code; none when every code
      present is excluded (or the room is empty). */
  function MainCategory(hist: map<int, nat>): (r: Option<int>)
    ensures r.None? <==> forall c :: c in hist ==> Excluded(c)
    ensures r.Some? ==> IsMain(hist, r.value)
  {
    if forall c :: c in hist ==> Excluded(c) then None
    else
      assert exists c :: c in hist && !Excluded(c);
      MainExists(hist);
      var c :| IsMain(hist, c);
      Some(c)
  }

  /** The room type named by a main category (`category_to_room`), "Other" otherwise. */
  function RoomTypeName(main: Option<int>): (name: string)
    ensures name == "Other" <==> main.None? || main.value !in {3, 4, 5, 6, 7, 9, 10}
  {
    match main
    case Some(3) => "Kitchen"
    case Some(4) => "Living Room"
    case Some(5) => "Bedroom"
    case Some(6) => "Bath"
    case Some(7) => "Hallway"
    case Some(9) => "Storage"
    case Some(10) => "Garage"
    case _ => "Other"
  }

  /** The record of room `rid`. */
  function RoomOf(labels: array2<int>, region: array2<int>, rid: int): Room
    reads labels, region
    requires SameShape(labels, region)
  {
    Room(rid, Area(region, rid), RoomTypeName(MainCategory(Histogram(labels, region, rid))))
  }

  function TotalArea(rooms: seq<Room>): int
  {
    if rooms == [] then 0 else TotalArea(rooms[..|rooms| - 1]) + rooms[|rooms| - 1].area
  }

  /** The pixels whose id lies in 1..k. */
  function LabelledUpTo(region: array2<int>, k: int): set<Pos>
    reads region
  {
    set p | p in AllPixels(region.Length0, region.Length1) && 1 <= Get(region, p) <= k
  }

  /** The areas of rooms 1..k add up to the number of pixels with an id in 1..k. */
  lemma {:induction false} AreasAddUp(labels: array2<int>, region: array2<int>, rooms: seq<Room>)
    requires SameShape(labels, region)
    requires forall i :: 0 <= i < |rooms| ==> rooms[i] == RoomOf(labels, region, i + 1)
    ensures TotalArea(rooms) == |LabelledUpTo(region, |rooms|)|
  {
    var k := |rooms|;
    if k == 0 {
      assert LabelledUpTo(region, 0) == {};
    } else {
      AreasAddUp(labels, region, rooms[..k - 1]);
      var below := LabelledUpTo(region, k - 1);
      var top := Cells(region, k);
      assert LabelledUpTo(region, k) == below + top;
      assert below * top == {};
      assert rooms[k - 1].area == |top|;
    }
  }

  /** The room loop of `extract_rooms`: one record per id 1..n, in order. */
  method RoomRecords(labels: array2<int>, region: array2<int>, n: nat) returns (rooms: seq<Room>)
    requires SameShape(labels, region)
    ensures |rooms| == n
    ensures forall i :: 0 <= i < n ==> rooms[i] == RoomOf(labels, region, i + 1)
  {
    rooms := [];
    for rid := 1 to n + 1
      invariant |rooms| == rid - 1
      invariant forall i :: 0 <= i < |rooms| ==> rooms[i] == RoomOf(labels, region, i + 1)
    {
      var area := Area(region, rid);
      var hist := Histogram(labels, region, rid);
      var main := MainCategory(hist);
      rooms := rooms + [Room(rid, area, RoomTypeName(main))];
    }
  }

  /** The set of eligible pixels. */
  function EligiblePixels(labels: array2<int>): set<Pos>
    reads labels
  {
    set p | p in AllPixels(labels.Length0, labels.Length1) && !Excluded(Get(labels, p))
  }

  /** The room areas add up to the number of eligible pixels. */
  lemma AreasCoverEligible(labels: array2<int>, mask: array2<bool>, region: array2<int>, seeds: seq<Pos>,
                           routes: map<Pos, seq<Pos>>, rooms: seq<Room>)
    requires SameShape(mask, labels) && SameShape(region, labels)
    requires forall p :: Inside(mask, p) ==> (Get(mask, p) <==> !Excluded(Get(labels, p)))
    requires IsLabelling(mask, region, |rooms|, seeds, routes)
    requires forall i :: 0 <= i < |rooms| ==> rooms[i] == RoomOf(labels, region, i + 1)
    ensures TotalArea(rooms) == |EligiblePixels(labels)|
  {
    AreasAddUp(labels, region, rooms);
    assert LabelledUpTo(region, |rooms|) == EligiblePixels(labels);
  }

  /** `extract_rooms`: the eligibility mask, the row-major flood fill that
      gives each room its id, and one record per room in id order. */
  method ExtractRooms(labels: array2<int>)
    returns (region: array2<int>, rooms: seq<Room>, ghost mask: array2<bool>, ghost seeds: seq<Pos>,
             ghost pushed: seq<Pos>, ghost routes: map<Pos, seq<Pos>>)
    ensures SameShape(mask, labels) && SameShape(region, labels)
    ensures forall p :: Inside(mask, p) ==> (Get(mask, p) <==> !Excluded(Get(labels, p)))
    ensures IsLabelling(mask, region, |rooms|, seeds, routes)
    ensures NoDuplicates(pushed)
    ensures forall p :: p in pushed <==> Inside(mask, p) && Get(mask, p)
    ensures forall i :: 0 <= i < |rooms| ==> rooms[i] == RoomOf(labels, region, i + 1)
    ensures TotalArea(rooms) == |EligiblePixels(labels)|
  {
    var m := Eligibility(labels);
    mask := m;
    var n;
    region, n, seeds, pushed, routes := Label(m);
    rooms := RoomRecords(labels, region, n);
    AreasCoverEligible(labels, mask, region, seeds, routes, rooms);
  }
}
