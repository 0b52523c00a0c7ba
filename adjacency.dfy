/** The three room-adjacency detectors, each the door pass, the window pass
    and one wall pass run in turn over one dictionary that starts empty. */
module Adjacency {
  import opened Grid
  import opened Boundary
  import opened Edges
  import opened Openings
  import WallBfs
  import WallScan
  import WallDistance

  /** Every connection of a log is valid and of kind `kind`, between two positive ids. */
  predicate OpeningConns(log: seq<Conn>, kind: Kind)
  {
    forall i :: 0 <= i < |log| ==> log[i].kind == kind && ValidConn(log[i]) && 0 < log[i].a < log[i].b
  }

  /** A log without wall connections adds nothing to the wall extent. */
  lemma {:induction false} NoWallArea(log: seq<Conn>)
    requires forall i :: 0 <= i < |log| ==> log[i].kind != Wall
    ensures LogWallArea(log) == 0
  {
    if log != [] {
      NoWallArea(log[..|log| - 1]);
    }
  }

  /** The log of one opening pass is made of valid connections of its kind. */
  lemma PassConns(region: array2<int>, lab: array2<int>, n: nat, kind: Kind, rule: Rule)
    ensures OpeningConns(Somes(Candidates(region, lab, n, kind, rule)), kind)
  {
    PassLogFacts(region, lab, n, kind, rule);
    var log := Somes(Candidates(region, lab, n, kind, rule));
    assert forall i :: 0 <= i < |log| ==> log[i] in log;
  }

  /** Replaying the door and window logs from the empty dictionary gives
      well-formed entries with positive ids and no wall extent. */
  lemma OpeningsValid(doors: seq<Conn>, windows: seq<Conn>)
    requires OpeningConns(doors, Door) && OpeningConns(windows, Window)
    ensures ValidEdges(Replay(map[], doors + windows)) && PositiveKeys(Replay(map[], doors + windows))
    ensures TotalWallArea(Replay(map[], doors + windows)) == 0
    ensures forall k :: k in Replay(map[], doors + windows) ==> Wall !in Replay(map[], doors + windows)[k].types
  {
    var log := doors + windows;
    assert forall i :: 0 <= i < |log| ==> (i < |doors| && log[i] == doors[i]) || (i >= |doors| && log[i] == windows[i - |doors|]);
    ReplayValid(map[], log);
    ReplayPositive(map[], log);
    NoWallArea(log);
    ReplayTotalWallArea(map[], log);
    forall k | k in Replay(map[], log)
      ensures Wall !in Replay(map[], log)[k].types
    {
      assert ValidEdge(k, Replay(map[], log)[k]);
      ReplayTotals(map[], log, k);
      NoWallCount(log, k);
    }
  }

  /** A log without wall connections records no wall segment for any pair. */
  lemma {:induction false} NoWallCount(log: seq<Conn>, k: Key)
    requires forall i :: 0 <= i < |log| ==> log[i].kind != Wall
    ensures WallCount(log, k) == 0
  {
    if log != [] {
      NoWallCount(log[..|log| - 1], k);
    }
  }

  /** The door pass and the window pass, run under `rule` from the empty
      dictionary: the doors are the accepted components of icon value 1 in
      label order, the windows those of icon value 2. */
  method OpeningPasses(region: array2<int>, icon: array2<int>, rule: Rule)
    returns (edges: EdgeMap, ghost doors: seq<Conn>, ghost windows: seq<Conn>, ghost D: IconLabels, ghost W: IconLabels)
    requires SameShape(region, icon)
    ensures ComponentsOf(icon, 1, D) && doors == Somes(Candidates(region, D.lab, D.n, Door, rule))
    ensures ComponentsOf(icon, 2, W) && windows == Somes(Candidates(region, W.lab, W.n, Window, rule))
    ensures edges == Replay(map[], doors + windows)
    ensures OpeningConns(doors, Door) && OpeningConns(windows, Window)
    ensures ValidEdges(edges) && PositiveKeys(edges)
    ensures TotalWallArea(edges) == 0
    ensures forall k :: k in edges ==> Wall !in edges[k].types
  {
    var e1;
    e1, D, doors := OpeningPass(region, icon, 1, Door, rule, map[]);
    PassConns(region, D.lab, D.n, Door, rule);
    label doorPass:
    edges, W, windows := OpeningPass(region, icon, 2, Window, rule, e1);
    assert unchanged@doorPass(region, icon, D.mask, D.lab);
    PassConns(region, W.lab, W.n, Window, rule);
    ReplayConcat(map[], doors, windows);
    OpeningsValid(doors, windows);
  }

  /** `detect_adjacency` of the main detector: openings under the
      exactly-two rule, then the breadth-first wall pass.  Every entry is
      well formed, keys hold positive ids when the id map is non-negative,
      and the wall extent over all pairs is at most the number of wall
      pixels. */
  method DetectAdjacency(region: array2<int>, wall: array2<int>, icon: array2<int>)
    returns (edges: EdgeMap, ghost doors: seq<Conn>, ghost windows: seq<Conn>, ghost walls: seq<Conn>,
             ghost segments: seq<set<Pos>>, ghost D: IconLabels, ghost W: IconLabels)
    requires SameShape(region, wall) && SameShape(region, icon)
    ensures ComponentsOf(icon, 1, D) && doors == Somes(Candidates(region, D.lab, D.n, Door, ExactlyTwo))
    ensures ComponentsOf(icon, 2, W) && windows == Somes(Candidates(region, W.lab, W.n, Window, ExactlyTwo))
    ensures edges == Replay(map[], doors + windows + walls)
    ensures OpeningConns(doors, Door) && OpeningConns(windows, Window)
    ensures WallConns(walls, NonNegative(region))
    ensures WallBfs.Backed(region, wall, walls, segments, Cells(wall, 1))
    ensures ValidEdges(edges)
    ensures NonNegative(region) ==> PositiveKeys(edges)
    ensures TotalWallArea(edges) <= |Cells(wall, 1)|
  {
    var afterOpenings;
    afterOpenings, doors, windows, D, W := OpeningPasses(region, icon, ExactlyTwo);
    label openings:
    edges, walls, segments := WallStage(region, wall, afterOpenings, doors + windows);
    assert unchanged@openings(region, icon, D.mask, D.lab, W.mask, W.lab);
  }

  /** The breadth-first wall pass run on the map the opening passes left. */
  method WallStage(region: array2<int>, wall: array2<int>, afterOpenings: EdgeMap, ghost openings: seq<Conn>)
    returns (edges: EdgeMap, ghost walls: seq<Conn>, ghost segments: seq<set<Pos>>)
    requires SameShape(region, wall)
    requires afterOpenings == Replay(map[], openings)
    requires ValidEdges(afterOpenings) && PositiveKeys(afterOpenings) && TotalWallArea(afterOpenings) == 0
    ensures edges == Replay(map[], openings + walls)
    ensures WallConns(walls, NonNegative(region))
    ensures WallBfs.Backed(region, wall, walls, segments, Cells(wall, 1))
    ensures ValidEdges(edges)
    ensures NonNegative(region) ==> PositiveKeys(edges)
    ensures TotalWallArea(edges) <= |Cells(wall, 1)|
  {
    edges, walls, segments := WallBfs.WallPass(region, wall, afterOpenings);
    ReplayConcat(map[], openings, walls);
    assert forall i :: 0 <= i < |walls| ==> ValidConn(walls[i]);
    ReplayValid(afterOpenings, walls);
    if NonNegative(region) {
      ReplayPositive(afterOpenings, walls);
    }
    ReplayTotalWallArea(afterOpenings, walls);
  }

  /** `detect_adjacency` of the second detector: openings under the
      exactly-two rule, then the ray scan over room boundaries with the ray
      starting one step past the boundary pixel. */
  method DetectAdjacencyV2(region: array2<int>, wall: array2<int>, icon: array2<int>, labels: array2<int>)
    returns (edges: EdgeMap, ghost doors: seq<Conn>, ghost windows: seq<Conn>, ghost walls: seq<Conn>,
             ghost segments: seq<set<Pos>>, ghost D: IconLabels, ghost W: IconLabels)
    requires SameShape(region, wall) && SameShape(region, icon) && SameShape(labels, region)
    ensures ComponentsOf(icon, 1, D) && doors == Somes(Candidates(region, D.lab, D.n, Door, ExactlyTwo))
    ensures ComponentsOf(icon, 2, W) && windows == Somes(Candidates(region, W.lab, W.n, Window, ExactlyTwo))
    ensures edges == Replay(map[], doors + windows + walls)
    ensures OpeningConns(doors, Door) && OpeningConns(windows, Window)
    ensures WallConns(walls, true)
    ensures WallScan.Judged(region, labels, walls, segments, Cells(wall, 1))
    ensures ValidEdges(edges) && PositiveKeys(edges)
  {
    var afterOpenings;
    afterOpenings, doors, windows, D, W := OpeningPasses(region, icon, ExactlyTwo);
    label openings:
    edges, walls, segments := WallScan.ScanPass(region, wall, labels, 1, afterOpenings);
    assert unchanged@openings(region, icon, D.mask, D.lab, W.mask, W.lab);
    ReplayConcat(map[], doors + windows, walls);
    assert forall i :: 0 <= i < |walls| ==> ValidConn(walls[i]);
    ReplayValid(afterOpenings, walls);
    ReplayPositive(afterOpenings, walls);
  }

  /** The second detector with the ray as written, starting on the boundary
      pixel itself: when wall pixels carry id 0 in the region map, no wall
      connection is ever recorded and the result holds openings only. */
  method DetectAdjacencyV2AsWritten(region: array2<int>, wall: array2<int>, icon: array2<int>, labels: array2<int>)
    returns (edges: EdgeMap, ghost doors: seq<Conn>, ghost windows: seq<Conn>, ghost walls: seq<Conn>,
             ghost segments: seq<set<Pos>>, ghost D: IconLabels, ghost W: IconLabels)
    requires SameShape(region, wall) && SameShape(region, icon) && SameShape(labels, region)
    ensures ComponentsOf(icon, 1, D) && doors == Somes(Candidates(region, D.lab, D.n, Door, ExactlyTwo))
    ensures ComponentsOf(icon, 2, W) && windows == Somes(Candidates(region, W.lab, W.n, Window, ExactlyTwo))
    ensures edges == Replay(map[], doors + windows + walls)
    ensures WallsUnlabelled(region, wall) ==> walls == [] && edges == Replay(map[], doors + windows)
    ensures WallsUnlabelled(region, wall) ==> forall k :: k in edges ==> Wall !in edges[k].types
  {
    var afterOpenings;
    afterOpenings, doors, windows, D, W := OpeningPasses(region, icon, ExactlyTwo);
    label openings:
    edges, walls, segments := WallScan.ScanPass(region, wall, labels, 0, afterOpenings);
    assert unchanged@openings(region, icon, D.mask, D.lab, W.mask, W.lab);
    ReplayConcat(map[], doors + windows, walls);
  }

  /** `detect_adjacency` of the first detector: openings under the
      two-smallest rule, then the multi-source distance search.  Each wall
      connection is charged to a distinct searched wall pixel, at most four
      per pixel. */
  method DetectAdjacencyV1(region: array2<int>, wall: array2<int>, icon: array2<int>)
    returns (edges: EdgeMap, ghost doors: seq<Conn>, ghost windows: seq<Conn>, ghost walls: seq<Conn>,
             ghost D: IconLabels, ghost W: IconLabels,
             ghost orders: seq<seq<Pos>>, ghost Ds: seq<map<Pos, int>>, ghost parents: seq<map<Pos, Pos>>,
             ghost starts: seq<set<Pos>>)
    requires SameShape(region, wall) && SameShape(wall, icon)
    ensures ComponentsOf(icon, 1, D) && doors == Somes(Candidates(region, D.lab, D.n, Door, TwoSmallest))
    ensures ComponentsOf(icon, 2, W) && windows == Somes(Candidates(region, W.lab, W.n, Window, TwoSmallest))
    ensures edges == Replay(map[], doors + windows + walls)
    ensures OpeningConns(doors, Door) && OpeningConns(windows, Window)
    ensures WallConns(walls, NonNegative(region))
    ensures |walls| <= 4 * |WallDistance.MaskSet(wall, icon)|
    ensures WallDistance.Accounted(region, wall, icon, walls, orders, Ds, parents, starts)
    ensures ValidEdges(edges)
    ensures NonNegative(region) ==> PositiveKeys(edges)
  {
    var afterOpenings;
    afterOpenings, doors, windows, D, W := OpeningPasses(region, icon, TwoSmallest);
    edges, walls, orders, Ds, parents, starts := DistanceStage(region, wall, icon, afterOpenings, doors, windows, D, W);
  }

  /** The distance wall pass run on the map the opening passes left. */
  method DistanceStage(region: array2<int>, wall: array2<int>, icon: array2<int>, afterOpenings: EdgeMap,
                       ghost doors: seq<Conn>, ghost windows: seq<Conn>, ghost D: IconLabels, ghost W: IconLabels)
    returns (edges: EdgeMap, ghost walls: seq<Conn>,
             ghost orders: seq<seq<Pos>>, ghost Ds: seq<map<Pos, int>>, ghost parents: seq<map<Pos, Pos>>,
             ghost starts: seq<set<Pos>>)
    requires SameShape(region, wall) && SameShape(wall, icon)
    requires ComponentsOf(icon, 1, D) && doors == Somes(Candidates(region, D.lab, D.n, Door, TwoSmallest))
    requires ComponentsOf(icon, 2, W) && windows == Somes(Candidates(region, W.lab, W.n, Window, TwoSmallest))
    requires afterOpenings == Replay(map[], doors + windows)
    requires ValidEdges(afterOpenings) && PositiveKeys(afterOpenings)
    ensures ComponentsOf(icon, 1, D) && doors == Somes(Candidates(region, D.lab, D.n, Door, TwoSmallest))
    ensures ComponentsOf(icon, 2, W) && windows == Somes(Candidates(region, W.lab, W.n, Window, TwoSmallest))
    ensures edges == Replay(map[], doors + windows + walls)
    ensures WallConns(walls, NonNegative(region))
    ensures |walls| <= 4 * |WallDistance.MaskSet(wall, icon)|
    ensures WallDistance.Accounted(region, wall, icon, walls, orders, Ds, parents, starts)
    ensures ValidEdges(edges)
    ensures NonNegative(region) ==> PositiveKeys(edges)
  {
    ghost var pushed;
    label openings:
    edges, walls, pushed, orders, Ds, parents, starts := WallDistance.DistancePass(region, wall, icon, afterOpenings);
    assert unchanged@openings(region, icon, D.mask, D.lab, W.mask, W.lab);
    ReplayConcat(map[], doors + windows, walls);
    assert forall i :: 0 <= i < |walls| ==> ValidConn(walls[i]);
    ReplayValid(afterOpenings, walls);
    if NonNegative(region) {
      ReplayPositive(afterOpenings, walls);
    }
  }
}
