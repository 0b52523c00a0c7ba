/** The wall pass of the ray-scan variant (indoor_topology/detect_adjacency_v2.py):
    from every boundary pixel of a room a ray runs along a wall in each
    direction; a ray that reaches another room gives a wall segment, which is
    widened sideways, dropped when it touches the outside, and recorded under
    the room pair that most rarely faces across it. */
module WallScan {
  import opened Grid
  import opened Boundary
  import opened Edges

  /** The wall-label codes that mark a segment as an outer wall (`exclude_idx`). */
  const Excluded: set<int> := {0, 1, 8, 50}

  function Abs(x: int): nat
  {
    if x < 0 then -x else x
  }

  /** A bound on how far a ray from `p` can stay on the grid. */
  function Bound<T>(a: array2<T>, p: Pos): int
  {
    a.Length0 + a.Length1 + Abs(p.0) + Abs(p.1)
  }

  lemma BoundFacts<T>(a: array2<T>, p: Pos, d: Dir, t: int)
    requires 0 <= t && Inside(a, Move(p, d, t))
    ensures t < Bound(a, p)
  {
  }

  /** Pixel `q` is on the grid and is a wall pixel. */
  predicate IsWall(wall: array2<int>, q: Pos)
    reads wall
  {
    Inside(wall, q) && Get(wall, q) == 1
  }

  /** The step at which a ray from `p` in direction `d`, started at step `t`,
      leaves the wall: the first step from `t` on that is off the grid or not
      a wall pixel. */
  function RayEnd(wall: array2<int>, p: Pos, d: Dir, t: nat): (e: nat)
    reads wall
    ensures t <= e
    decreases Bound(wall, p) - t
  {
    if IsWall(wall, Move(p, d, t)) then
      BoundFacts(wall, p, d, t);
      RayEnd(wall, p, d, t + 1)
    else t
  }

  /** Every step of the ray from `t` up to its end is a wall pixel, and the end is not. */
  lemma {:induction false} RayEndFacts(wall: array2<int>, p: Pos, d: Dir, t: nat)
    ensures forall i :: t <= i < RayEnd(wall, p, d, t) ==> IsWall(wall, Move(p, d, i))
    ensures !IsWall(wall, Move(p, d, RayEnd(wall, p, d, t)))
    decreases Bound(wall, p) - t
  {
    if IsWall(wall, Move(p, d, t)) {
      BoundFacts(wall, p, d, t);
      RayEndFacts(wall, p, d, t + 1);
    }
  }

  /** The room a ray finds: the id of the pixel where it leaves the wall,
      when that pixel is on the grid and in a room other than 0 and `rid`. */
  function RayHit(region: array2<int>, wall: array2<int>, rid: int, p: Pos, d: Dir, first: nat): Option<int>
    reads region, wall
    requires SameShape(region, wall)
  {
    var c := Move(p, d, RayEnd(wall, p, d, first));
    if Inside(region, c) && Get(region, c) != 0 && Get(region, c) != rid then Some(Get(region, c)) else None
  }

  /** A ray from a pixel on the grid stays on it for at most max(h, w) steps. */
  lemma RaySteps(wall: array2<int>, p: Pos, d: Dir, first: nat)
    requires Inside(wall, p)
    ensures RayEnd(wall, p, d, first) - first <= (if wall.Length0 > wall.Length1 then wall.Length0 else wall.Length1)
  {
    var e := RayEnd(wall, p, d, first);
    RayEndFacts(wall, p, d, first);
    if e > first {
      assert IsWall(wall, Move(p, d, e - 1));
    }
  }

  /** The pixels at steps `first` to `e - 1` along direction `d` from `p`. */
  function Line(p: Pos, d: Dir, first: nat, e: nat): (s: seq<Pos>)
    ensures |s| == if e >= first then e - first else 0
    ensures forall i :: 0 <= i < |s| ==> s[i] == Move(p, d, first + i)
  {
    if e <= first then [] else Line(p, d, first, e - 1) + [Move(p, d, e - 1)]
  }

  /** The ray (lines 77-92), from step `first`: `seg` is the run of
      consecutive wall pixels along the ray, `other` the room found where it
      ends, and `last` the last step before that room. */
  method Ray(region: array2<int>, wall: array2<int>, rid: int, p: Pos, d: Dir, first: nat)
    returns (seg: seq<Pos>, other: Option<int>, last: Option<Pos>)
    requires SameShape(region, wall)
    ensures |seg| == RayEnd(wall, p, d, first) - first
    ensures forall i :: 0 <= i < |seg| ==> seg[i] == Move(p, d, first + i) && IsWall(wall, seg[i])
    ensures other == RayHit(region, wall, rid, p, d, first)
    ensures last.Some? <==> other.Some?
    ensures last.Some? ==> last.value == Move(p, d, RayEnd(wall, p, d, first) - 1)
    ensures seg == Line(p, d, first, RayEnd(wall, p, d, first))
  {
    var t := first;
    seg := [];
    while IsWall(wall, Move(p, d, t))
      invariant first <= t && RayEnd(wall, p, d, t) == RayEnd(wall, p, d, first)
      invariant |seg| == t - first
      invariant forall i :: 0 <= i < |seg| ==> seg[i] == Move(p, d, first + i) && IsWall(wall, seg[i])
      decreases Bound(wall, p) - t
    {
      BoundFacts(wall, p, d, t);
      seg := seg + [Move(p, d, t)];
      t := t + 1;
    }
    assert t == RayEnd(wall, p, d, first);
    var c := Move(p, d, t);
    if Inside(region, c) && region[c.0, c.1] != 0 && region[c.0, c.1] != rid {
      other, last := Some(region[c.0, c.1]), Some(Move(p, d, t - 1));
    } else {
      other, last := None, None;
    }
  }

  /** As written the ray starts at step 0, on the boundary pixel itself.  On
      a map whose wall pixels carry id 0 that pixel is not a wall pixel and
      lies in `rid`, so the ray finds no room from any boundary pixel. */
  lemma AsWrittenRayMisses(region: array2<int>, wall: array2<int>, rid: int, p: Pos, d: Dir)
    requires SameShape(region, wall) && WallsUnlabelled(region, wall)
    requires rid != 0 && IsBoundary(region, rid, p)
    ensures RayEnd(wall, p, d, 0) == 0
    ensures RayHit(region, wall, rid, p, d, 0) == None
  {
    assert Move(p, d, 0) == p;
  }

  /** Started at step 1, on the wall pixel next to the boundary pixel, the
      ray finds the room across the wall: the first pixel past the run of
      wall pixels, when it lies in another room. */
  lemma CorrectedRayFinds(region: array2<int>, wall: array2<int>, rid: int, p: Pos, d: Dir, e: nat)
    requires SameShape(region, wall)
    requires 1 < e && forall i :: 1 <= i < e ==> IsWall(wall, Move(p, d, i))
    requires Inside(region, Move(p, d, e)) && !IsWall(wall, Move(p, d, e))
    requires Get(region, Move(p, d, e)) != 0 && Get(region, Move(p, d, e)) != rid
    ensures RayEnd(wall, p, d, 1) == e
    ensures RayHit(region, wall, rid, p, d, 1) == Some(Get(region, Move(p, d, e)))
  {
    var r := RayEnd(wall, p, d, 1);
    RayEndFacts(wall, p, d, 1);
    assert r < e ==> IsWall(wall, Move(p, d, r));
    assert r > e ==> IsWall(wall, Move(p, d, e));
  }

  /** The smallest case: one row holding room 1, a wall pixel and room 2.
      From the boundary pixel (0, 0) looking east the ray as written finds
      nothing, while the ray started at step 1 finds room 2. */
  lemma RayCounterexample(region: array2<int>, wall: array2<int>)
    requires region.Length0 == 1 && region.Length1 == 3 && SameShape(region, wall)
    requires region[0, 0] == 1 && region[0, 1] == 0 && region[0, 2] == 2
    requires wall[0, 0] == 0 && wall[0, 1] == 1 && wall[0, 2] == 0
    ensures IsBoundary(region, 1, (0, 0))
    ensures RayHit(region, wall, 1, (0, 0), East, 0) == None
    ensures RayHit(region, wall, 1, (0, 0), East, 1) == Some(2)
  {
    assert !Inside(region, Step((0, 0), North));
    assert !IsWall(wall, Move((0, 0), East, 0));
    assert IsWall(wall, Move((0, 0), East, 1));
    assert !IsWall(wall, Move((0, 0), East, 2));
    assert RayEnd(wall, (0, 0), East, 1) == RayEnd(wall, (0, 0), East, 2) == 2;
  }

  /** A pixel the sideways extension absorbs: an unvisited wall pixel on the
      grid whose `sideA` neighbour is on the grid in room `rid` and whose
      `sideB` neighbour is on the grid in room `other` (lines 113-122). */
  ghost predicate Absorbs(region: array2<int>, wall: array2<int>, vis: set<Pos>, rid: int, other: int,
                          c: Pos, sideA: Dir, sideB: Dir)
    reads region, wall
    requires SameShape(region, wall)
  {
    && IsWall(wall, c) && c !in vis
    && Inside(region, Step(c, sideA)) && Inside(region, Step(c, sideB))
    && Get(region, Step(c, sideA)) == rid && Get(region, Step(c, sideB)) == other
  }

  lemma MoveApart(p: Pos, d: Dir, i: int, j: int)
    requires i != j
    ensures Move(p, d, i) != Move(p, d, j)
  {
  }

  /** Marking wall pixel `c` visited. */
  method Take(wall: array2<int>, visited: array2<bool>, c: Pos, ghost vis: set<Pos>) returns (ghost vis': set<Pos>)
    modifies visited
    requires SameShape(visited, wall) && VisMatch(visited, vis, wall) && IsWall(wall, c)
    ensures vis' == vis + {c} && VisMatch(visited, vis', wall)
  {
    visited[c.0, c.1] := true;
    vis' := vis + {c};
  }

  lemma ElemsSnoc(s: seq<Pos>, c: Pos)
    ensures Elems(s + [c]) == Elems(s) + {c}
  {
  }

  /** The first `k` pixels from `base` in direction `o`. */
  function LineSet(base: Pos, o: Dir, k: nat): set<Pos>
  {
    if k == 0 then {} else LineSet(base, o, k - 1) + {Move(base, o, k)}
  }

  lemma {:induction false} LineSetMembers(base: Pos, o: Dir, k: nat, q: Pos)
    ensures q in LineSet(base, o, k) <==> exists i :: 1 <= i <= k && q == Move(base, o, i)
  {
    if k > 0 {
      LineSetMembers(base, o, k - 1, q);
      if q in LineSet(base, o, k - 1) {
        var i :| 1 <= i <= k - 1 && q == Move(base, o, i);
        assert 1 <= i <= k;
      }
    }
  }

  /** A pixel further along the line is not among the first `k`. */
  lemma {:induction false} LineSetBeyond(base: Pos, o: Dir, k: nat, j: int)
    requires j > k
    ensures Move(base, o, j) !in LineSet(base, o, k)
  {
    if k > 0 {
      LineSetBeyond(base, o, k - 1, j);
      MoveApart(base, o, k, j);
    }
  }

  /** The pixels the extension would absorb, against visited set `vis`. */
  ghost function AbsorbSet(region: array2<int>, wall: array2<int>, vis: set<Pos>, rid: int, other: int,
                           sideA: Dir, sideB: Dir): (s: set<Pos>)
    reads region, wall
    requires SameShape(region, wall)
    ensures forall c {:trigger c in s} :: c in s <==> Absorbs(region, wall, vis, rid, other, c, sideA, sideB)
  {
    set c | c in AllPixels(wall.Length0, wall.Length1) && Absorbs(region, wall, vis, rid, other, c, sideA, sideB)
  }

  /** Visiting the pixels of `x` removes exactly them from what an extension absorbs. */
  lemma AbsorbSetMinus(region: array2<int>, wall: array2<int>, vis: set<Pos>, x: set<Pos>, rid: int, other: int,
                       sideA: Dir, sideB: Dir)
    requires SameShape(region, wall)
    ensures AbsorbSet(region, wall, vis + x, rid, other, sideA, sideB) == AbsorbSet(region, wall, vis, rid, other, sideA, sideB) - x
  {
  }

  /** The first `k` pixels along the line all lie in `s`. */
  predicate AllIn(s: set<Pos>, base: Pos, o: Dir, k: nat)
  {
    k == 0 || (AllIn(s, base, o, k - 1) && Move(base, o, k) in s)
  }

  lemma {:induction false} AllInEach(s: set<Pos>, base: Pos, o: Dir, k: nat)
    requires AllIn(s, base, o, k)
    ensures forall i :: 1 <= i <= k ==> Move(base, o, i) in s
  {
    if k > 0 {
      AllInEach(s, base, o, k - 1);
    }
  }

  /** A set that is `a` plus the first `k` pixels of a line, with the next pixel added. */
  lemma LineStep(a: set<Pos>, b: set<Pos>, base: Pos, o: Dir, k: nat)
    requires b == a + LineSet(base, o, k)
    ensures b + {Move(base, o, k + 1)} == a + LineSet(base, o, k + 1)
  {
  }

  /** One sideways extension (lines 108-124): from `base` in direction `o`
      it absorbs the next pixel while it qualifies and stops at the first that
      does not; the `k` absorbed pixels are added to the segment and marked
      visited. */
  method Extend(region: array2<int>, wall: array2<int>, visited: array2<bool>, rid: int, other: int,
                base: Pos, o: Dir, sideA: Dir, sideB: Dir, segSet: set<Pos>, ghost vis: set<Pos>, ghost s: set<Pos>)
    returns (segSet': set<Pos>, ghost vis': set<Pos>, k: nat)
    modifies visited
    requires SameShape(region, wall) && SameShape(visited, region)
    requires VisMatch(visited, vis, wall)
    requires s == AbsorbSet(region, wall, vis, rid, other, sideA, sideB)
    ensures VisMatch(visited, vis', wall)
    ensures forall i :: 1 <= i <= k ==> Absorbs(region, wall, vis, rid, other, Move(base, o, i), sideA, sideB)
    ensures !Absorbs(region, wall, vis, rid, other, Move(base, o, k + 1), sideA, sideB)
    ensures vis' == vis + LineSet(base, o, k) && segSet' == segSet + LineSet(base, o, k)
    ensures AllIn(s, base, o, k) && Move(base, o, k + 1) !in s
  {
    segSet', vis', k := segSet, vis, 0;
    var go := Qualifies(region, wall, visited, rid, other, base, o, sideA, sideB, k, vis, vis', s);
    while go
      invariant s == AbsorbSet(region, wall, vis, rid, other, sideA, sideB)
      invariant ExtState(visited, wall, s, base, o, vis, segSet, vis', segSet', k)
      invariant go <==> Move(base, o, k + 1) in s
      decreases Bound(wall, base) - k
    {
      segSet', vis', k, go := ExtendIter(region, wall, visited, rid, other, base, o, sideA, sideB, s, vis, segSet, vis', segSet', k);
    }
    AbsorbedAll(region, wall, vis, rid, other, sideA, sideB, s, base, o, k);
  }

  /** The pixels the extension took all qualify, and the one after them does not. */
  lemma AbsorbedAll(region: array2<int>, wall: array2<int>, vis: set<Pos>, rid: int, other: int,
                    sideA: Dir, sideB: Dir, s: set<Pos>, base: Pos, o: Dir, k: nat)
    requires SameShape(region, wall)
    requires s == AbsorbSet(region, wall, vis, rid, other, sideA, sideB) && AllIn(s, base, o, k)
    requires Move(base, o, k + 1) !in s
    ensures forall i :: 1 <= i <= k ==> Absorbs(region, wall, vis, rid, other, Move(base, o, i), sideA, sideB)
    ensures !Absorbs(region, wall, vis, rid, other, Move(base, o, k + 1), sideA, sideB)
  {
    AllInEach(s, base, o, k);
  }

  /** One turn of the extension loop: absorb the next pixel, then test the one after it. */
  method ExtendIter(region: array2<int>, wall: array2<int>, visited: array2<bool>, rid: int, other: int,
                    base: Pos, o: Dir, sideA: Dir, sideB: Dir, ghost s: set<Pos>,
                    ghost vis0: set<Pos>, seg0: set<Pos>, ghost vis: set<Pos>, seg: set<Pos>, k: nat)
    returns (seg': set<Pos>, ghost vis': set<Pos>, k': nat, go: bool)
    modifies visited
    requires SameShape(region, wall) && SameShape(visited, region)
    requires s == AbsorbSet(region, wall, vis0, rid, other, sideA, sideB)
    requires ExtState(visited, wall, s, base, o, vis0, seg0, vis, seg, k) && Move(base, o, k + 1) in s
    ensures k' == k + 1 && k' <= Bound(wall, base)
    ensures s == AbsorbSet(region, wall, vis0, rid, other, sideA, sideB)
    ensures ExtState(visited, wall, s, base, o, vis0, seg0, vis', seg', k')
    ensures go <==> Move(base, o, k' + 1) in s
  {
    label before:
    seg', vis', k' := ExtendOne(wall, visited, s, base, o, vis0, seg0, vis, seg, k);
    assert unchanged@before(region, wall);
    assert s == AbsorbSet(region, wall, vis0, rid, other, sideA, sideB);
    go := Qualifies(region, wall, visited, rid, other, base, o, sideA, sideB, k', vis0, vis', s);
  }

  /** The state of one extension after `k` absorbed pixels, all in `s`. */
  ghost predicate ExtState(visited: array2<bool>, wall: array2<int>, s: set<Pos>, base: Pos, o: Dir,
                           vis0: set<Pos>, seg0: set<Pos>, vis: set<Pos>, seg: set<Pos>, k: nat)
    reads visited, wall
  {
    && VisMatch(visited, vis, wall)
    && AllIn(s, base, o, k)
    && vis == vis0 + LineSet(base, o, k) && seg == seg0 + LineSet(base, o, k)
  }

  /** Absorbing the next pixel, which qualifies: it joins the segment and is marked visited. */
  method ExtendOne(wall: array2<int>, visited: array2<bool>, ghost s: set<Pos>, base: Pos, o: Dir,
                   ghost vis0: set<Pos>, seg0: set<Pos>, ghost vis: set<Pos>, seg: set<Pos>, k: nat)
    returns (seg': set<Pos>, ghost vis': set<Pos>, k': nat)
    modifies visited
    requires SameShape(visited, wall)
    requires ExtState(visited, wall, s, base, o, vis0, seg0, vis, seg, k)
    requires Move(base, o, k + 1) in s && IsWall(wall, Move(base, o, k + 1))
    ensures k' == k + 1 && k' <= Bound(wall, base)
    ensures ExtState(visited, wall, s, base, o, vis0, seg0, vis', seg', k')
  {
    var c := Move(base, o, k + 1);
    BoundFacts(wall, base, o, k + 1);
    vis' := Take(wall, visited, c, vis);
    seg' := seg + {c};
    k' := k + 1;
    LineStep(vis0, vis, base, o, k);
    LineStep(seg0, seg, base, o, k);
  }

  /** Whether the extension takes the next pixel (lines 111-122). */
  method Qualifies(region: array2<int>, wall: array2<int>, visited: array2<bool>, rid: int, other: int,
                   base: Pos, o: Dir, sideA: Dir, sideB: Dir, k: nat, ghost vis0: set<Pos>, ghost vis: set<Pos>,
                   ghost s: set<Pos>)
    returns (go: bool)
    requires SameShape(region, wall) && SameShape(visited, region)
    requires VisMatch(visited, vis, wall)
    requires vis == vis0 + LineSet(base, o, k)
    requires s == AbsorbSet(region, wall, vis0, rid, other, sideA, sideB)
    ensures go <==> Move(base, o, k + 1) in s
    ensures s == AbsorbSet(region, wall, vis0, rid, other, sideA, sideB)
  {
    var c := Move(base, o, k + 1);
    LineSetBeyond(base, o, k, k + 1);
    assert Inside(visited, c) ==> (Get(visited, c) <==> c in vis0);
    go := Inside(wall, c) && wall[c.0, c.1] == 1 && !visited[c.0, c.1] &&
          Inside(region, Step(c, sideA)) && Inside(region, Step(c, sideB)) &&
          Get(region, Step(c, sideA)) == rid && Get(region, Step(c, sideB)) == other;
  }

  /** Pixel `q` has a 4-neighbour on the grid whose wall-label code is excluded. */
  ghost predicate TouchesOutside(labels: array2<int>, q: Pos)
    reads labels
  {
    exists d :: Inside(labels, Step(q, d)) && Get(labels, Step(q, d)) in Excluded
  }

  /** Some pixel of the segment touches the outside. */
  ghost predicate Exterior(labels: array2<int>, seg: set<Pos>)
    reads labels
  {
    exists q :: q in seg && TouchesOutside(labels, q)
  }

  /** The neighbour test of the exterior check (lines 129-133), in the scan order. */
  method Touches(labels: array2<int>, q: Pos) returns (b: bool)
    ensures b <==> TouchesOutside(labels, q)
  {
    b := false;
    var k := 0;
    while k < 4 && !b
      invariant 0 <= k <= 4
      invariant b ==> TouchesOutside(labels, q)
      invariant !b ==> forall j :: 0 <= j < k ==>
        !(Inside(labels, Step(q, ScanOrder[j])) && Get(labels, Step(q, ScanOrder[j])) in Excluded)
    {
      var n := Step(q, ScanOrder[k]);
      if 0 <= n.0 < labels.Length0 && 0 <= n.1 < labels.Length1 && labels[n.0, n.1] in Excluded {
        b := true;
      }
      k := k + 1;
    }
    if !b {
      forall d: Dir
        ensures !(Inside(labels, Step(q, d)) && Get(labels, Step(q, d)) in Excluded)
      {
        var j := ScanIndex(d);
      }
    }
  }

  /** The exterior check (lines 127-137): whether some pixel of the segment,
      taken in any order, touches the outside. */
  method IsExterior(labels: array2<int>, seg: set<Pos>) returns (ext: bool)
    ensures ext <==> Exterior(labels, seg)
  {
    ext := false;
    var rest := seg;
    while rest != {} && !ext
      invariant rest <= seg
      invariant ext ==> Exterior(labels, seg)
      invariant !ext ==> forall q :: q in seg && q !in rest ==> !TouchesOutside(labels, q)
      decreases |rest|
    {
      SomePos(rest);
      var q :| q in rest;
      ext := Touches(labels, q);
      rest := rest - {q};
    }
  }

  /** The room pair across pixel `q` from left to right (lines 143-148):
      both sides on the grid, with distinct positive ids. */
  function AcrossRow(region: array2<int>, q: Pos): Option<Key>
    reads region
    requires Inside(region, q)
  {
    if q.1 - 1 >= 0 && q.1 + 1 < region.Length1 then
      var a := region[q.0, q.1 - 1];
      var b := region[q.0, q.1 + 1];
      if a > 0 && b > 0 && a != b then Some(Canon(a, b)) else None
    else None
  }

  /** The room pair across pixel `q` from top to bottom (lines 150-155). */
  function AcrossColumn(region: array2<int>, q: Pos): Option<Key>
    reads region
    requires Inside(region, q)
  {
    if q.0 - 1 >= 0 && q.0 + 1 < region.Length0 then
      var a := region[q.0 - 1, q.1];
      var b := region[q.0 + 1, q.1];
      if a > 0 && b > 0 && a != b then Some(Canon(a, b)) else None
    else None
  }

  /** The pixels of `seg` across which pair `k` faces from left to right. */
  ghost function RowHits(region: array2<int>, seg: set<Pos>, k: Key): set<Pos>
    reads region
  {
    set q | q in seg && Inside(region, q) && AcrossRow(region, q) == Some(k)
  }

  /** The pixels of `seg` across which pair `k` faces from top to bottom. */
  ghost function ColumnHits(region: array2<int>, seg: set<Pos>, k: Key): set<Pos>
    reads region
  {
    set q | q in seg && Inside(region, q) && AcrossColumn(region, q) == Some(k)
  }

  /** How often pair `k` faces across the pixels of `seg`, counting rows and columns. */
  ghost function PairCount(region: array2<int>, seg: set<Pos>, k: Key): nat
    reads region
  {
    |RowHits(region, seg, k)| + |ColumnHits(region, seg, k)|
  }

  lemma RowHitsAdd(region: array2<int>, done: set<Pos>, q: Pos, k: Key)
    requires q !in done && Inside(region, q)
    ensures |RowHits(region, done + {q}, k)| == |RowHits(region, done, k)| + (if AcrossRow(region, q) == Some(k) then 1 else 0)
  {
    if AcrossRow(region, q) == Some(k) {
      assert RowHits(region, done + {q}, k) == RowHits(region, done, k) + {q};
    } else {
      assert RowHits(region, done + {q}, k) == RowHits(region, done, k);
    }
  }

  lemma ColumnHitsAdd(region: array2<int>, done: set<Pos>, q: Pos, k: Key)
    requires q !in done && Inside(region, q)
    ensures |ColumnHits(region, done + {q}, k)| == |ColumnHits(region, done, k)| + (if AcrossColumn(region, q) == Some(k) then 1 else 0)
  {
    if AcrossColumn(region, q) == Some(k) {
      assert ColumnHits(region, done + {q}, k) == ColumnHits(region, done, k) + {q};
    } else {
      assert ColumnHits(region, done + {q}, k) == ColumnHits(region, done, k);
    }
  }

  lemma PairCountAdd(region: array2<int>, done: set<Pos>, q: Pos, k: Key)
    requires q !in done && Inside(region, q)
    ensures PairCount(region, done + {q}, k) == PairCount(region, done, k)
      + (if AcrossRow(region, q) == Some(k) then 1 else 0) + (if AcrossColumn(region, q) == Some(k) then 1 else 0)
  {
    RowHitsAdd(region, done, q, k);
    ColumnHitsAdd(region, done, q, k);
  }

  lemma PairCountEmpty(region: array2<int>, k: Key)
    ensures PairCount(region, {}, k) == 0
  {
  }

  /** The count of `k` in a dictionary, 0 when it has no entry. */
  function Count(pc: map<Key, int>, k: Key): int
  {
    if k in pc then pc[k] else 0
  }

  /** The counts facing across `done`, every key a canonical pair of distinct positive ids. */
  ghost predicate CountsOf(region: array2<int>, done: set<Pos>, pc: map<Key, int>)
    reads region
  {
    (forall k :: Count(pc, k) == PairCount(region, done, k)) &&
    (forall k :: k in pc ==> pc[k] > 0 && 0 < k.0 < k.1)
  }

  /** Bumping the count of `p` (`pair_count[p] = pair_count.get(p, 0) + 1`). */
  function Bump(pc: map<Key, int>, p: Option<Key>): (r: map<Key, int>)
  {
    if p.Some? then pc[p.value := Count(pc, p.value) + 1] else pc
  }

  /** The counts of one pixel added (lines 142-155). */
  method CountPixel(region: array2<int>, ghost done: set<Pos>, q: Pos, pc: map<Key, int>) returns (pc': map<Key, int>)
    requires Inside(region, q) && q !in done
    requires CountsOf(region, done, pc)
    ensures CountsOf(region, done + {q}, pc')
  {
    pc' := Bump(Bump(pc, AcrossRow(region, q)), AcrossColumn(region, q));
    forall k
      ensures Count(pc', k) == PairCount(region, done + {q}, k)
    {
      PairCountAdd(region, done, q, k);
    }
  }

  /** `pair_count` (lines 140-155): for every pair, how often it faces across
      the segment; the pixels are taken in any order. */
  method PairCounts(region: array2<int>, seg: set<Pos>) returns (pc: map<Key, int>)
    requires forall q :: q in seg ==> Inside(region, q)
    ensures CountsOf(region, seg, pc)
  {
    pc := map[];
    var rest := seg;
    ghost var done: set<Pos> := {};
    forall k
      ensures PairCount(region, done, k) == 0
    {
      PairCountEmpty(region, k);
    }
    while rest != {}
      invariant rest <= seg && done == seg - rest
      invariant CountsOf(region, done, pc)
      decreases |rest|
    {
      SomePos(rest);
      var q :| q in rest;
      pc := CountPixel(region, done, q, pc);
      done := done + {q};
      rest := rest - {q};
    }
    assert done == seg;
  }

  lemma MinCountExists(pc: map<Key, int>)
    requires |pc| > 0
    ensures exists b :: b in pc && forall k :: k in pc ==> pc[b] <= pc[k]
  {
    var vals := set k | k in pc :: pc[k];
    assert (forall k :: k !in pc) ==> pc == map[];
    var some :| some in pc;
    assert pc[some] in vals;
    var m := Least(vals);
    var b :| b in pc && pc[b] == m;
    assert forall k :: k in pc ==> pc[k] in vals;
  }

  /** `min(pair_count.items(), key=count)`: a pair of least count.  Among
      several, the one met first in the dictionary's order, which this model
      leaves open. */
  method MinPair(pc: map<Key, int>) returns (best: Key)
    requires |pc| > 0
    ensures best in pc && forall k :: k in pc ==> pc[best] <= pc[k]
  {
    MinCountExists(pc);
    best :| best in pc && forall k :: k in pc ==> pc[best] <= pc[k];
  }

  /** Marking every pixel of the ray's run visited (line 99). */
  method MarkAll(wall: array2<int>, visited: array2<bool>, seg: seq<Pos>, ghost vis: set<Pos>)
    returns (ghost vis': set<Pos>)
    modifies visited
    requires SameShape(visited, wall) && VisMatch(visited, vis, wall)
    requires forall i :: 0 <= i < |seg| ==> IsWall(wall, seg[i])
    ensures vis' == vis + Elems(seg) && VisMatch(visited, vis', wall)
  {
    vis' := vis;
    for i := 0 to |seg|
      invariant VisMatch(visited, vis', wall)
      invariant vis' == vis + Elems(seg[..i])
    {
      vis' := Take(wall, visited, seg[i], vis');
      assert seg[..i + 1] == seg[..i] + [seg[i]];
      ElemsSnoc(seg[..i], seg[i]);
    }
    assert seg[..|seg|] == seg;
  }

  /** The directions of the extension for a ray in direction `d` (lines 101-106). */
  function Orient(d: Dir): (o: seq<Dir>)
    ensures |o| == 2
  {
    if Vertical(d) then [East, West] else [South, North]
  }

  /** How a segment was widened from `base`: `cells` is the ray's run plus
      `k0` pixels along the first orientation and `k1` along the second.
      `s0` holds the pixels the first extension may absorb; it absorbed its
      `k0` pixels from that set and stopped at the next one, and the second
      extension did the same against `s0` less what the first took. */
  ghost predicate Widened(d: Dir, run: seq<Pos>, base: Pos, cells: set<Pos>, k0: nat, k1: nat, s0: set<Pos>)
  {
    var o := Orient(d);
    var s1 := s0 - LineSet(base, o[0], k0);
    && cells == Elems(run) + LineSet(base, o[0], k0) + LineSet(base, o[1], k1)
    && AllIn(s0, base, o[0], k0) && Move(base, o[0], k0 + 1) !in s0
    && AllIn(s1, base, o[1], k1) && Move(base, o[1], k1 + 1) !in s1
  }

  /** The pixels the first extension of a ray's segment may absorb: those of
      `AbsorbSet` once the run is visited, between `rid` behind and `other`
      ahead. */
  ghost function RunAbsorbs(region: array2<int>, wall: array2<int>, rid: int, other: int, d: Dir,
                            run: seq<Pos>, vis: set<Pos>): set<Pos>
    reads region, wall
    requires SameShape(region, wall)
  {
    AbsorbSet(region, wall, vis + Elems(run), rid, other, Opposite(d), d)
  }

  /** `RunAbsorbs` for the run of the ray from `p` in direction `d`, from
      step `first` up to (not including) step `e`. */
  ghost function RayAbsorbs(region: array2<int>, wall: array2<int>, rid: int, other: int, p: Pos, d: Dir,
                            first: nat, e: nat, vis: set<Pos>): set<Pos>
    reads region, wall
    requires SameShape(region, wall)
  {
    RunAbsorbs(region, wall, rid, other, d, Line(p, d, first, e), vis)
  }

  /** What a widening means pixel by pixel: each extension absorbed exactly
      its first `k` pixels and stopped at the next one. */
  lemma WidenedAbsorbs(region: array2<int>, wall: array2<int>, rid: int, other: int, d: Dir,
                       run: seq<Pos>, base: Pos, vis: set<Pos>, cells: set<Pos>, k0: nat, k1: nat)
    requires SameShape(region, wall)
    requires Widened(d, run, base, cells, k0, k1, RunAbsorbs(region, wall, rid, other, d, run, vis))
    ensures var o := Orient(d);
      var v0 := vis + Elems(run);
      && (forall i :: 1 <= i <= k0 ==> Absorbs(region, wall, v0, rid, other, Move(base, o[0], i), Opposite(d), d))
      && !Absorbs(region, wall, v0, rid, other, Move(base, o[0], k0 + 1), Opposite(d), d)
      && (forall i :: 1 <= i <= k1 ==>
            Absorbs(region, wall, v0 + LineSet(base, o[0], k0), rid, other, Move(base, o[1], i), Opposite(d), d))
      && !Absorbs(region, wall, v0 + LineSet(base, o[0], k0), rid, other, Move(base, o[1], k1 + 1), Opposite(d), d)
  {
    var o := Orient(d);
    var v0 := vis + Elems(run);
    AllInEach(AbsorbSet(region, wall, v0, rid, other, Opposite(d), d), base, o[0], k0);
    AbsorbSetMinus(region, wall, v0, LineSet(base, o[0], k0), rid, other, Opposite(d), d);
    AllInEach(AbsorbSet(region, wall, v0 + LineSet(base, o[0], k0), rid, other, Opposite(d), d), base, o[1], k1);
  }

  /** The segment of a ray that found room `other` (lines 98-124): the ray's
      run, marked visited, widened on both sides of `base` by the extension;
      the segment's pixels are exactly those that became visited. */
  method Widen(region: array2<int>, wall: array2<int>, visited: array2<bool>, rid: int, other: int, d: Dir,
               seg: seq<Pos>, base: Pos, ghost vis: set<Pos>)
    returns (segSet: set<Pos>, ghost vis': set<Pos>, ghost k0: nat, ghost k1: nat, ghost s0: set<Pos>)
    modifies visited
    requires SameShape(region, wall) && SameShape(visited, region)
    requires VisMatch(visited, vis, wall)
    requires forall i :: 0 <= i < |seg| ==> IsWall(wall, seg[i])
    ensures VisMatch(visited, vis', wall)
    ensures vis' == vis + segSet
    ensures s0 == old(RunAbsorbs(region, wall, rid, other, d, seg, vis))
    ensures Widened(d, seg, base, segSet, k0, k1, s0)
  {
    var orient := Orient(d);
    ghost var v0 := vis + Elems(seg);
    s0 := AbsorbSet(region, wall, v0, rid, other, Opposite(d), d);
    assert s0 == RunAbsorbs(region, wall, rid, other, d, seg, vis);
    segSet := Elems(seg);
    vis' := MarkAll(wall, visited, seg, vis);
    var j0, j1;
    segSet, vis', j0 := Extend(region, wall, visited, rid, other, base, orient[0], Opposite(d), d, segSet, vis', s0);
    ghost var s1 := s0 - LineSet(base, orient[0], j0);
    AbsorbSetMinus(region, wall, v0, LineSet(base, orient[0], j0), rid, other, Opposite(d), d);
    assert vis' == v0 + LineSet(base, orient[0], j0);
    segSet, vis', j1 := Extend(region, wall, visited, rid, other, base, orient[1], Opposite(d), d, segSet, vis', s1);
    k0, k1 := j0, j1;
  }

  /** The judgement of segment `cells`: nothing exactly when it touches the
      outside or no pair faces across it; otherwise a wall connection between
      two positive ids, smaller first, for a pair of least positive count,
      whose extent is that count. */
  ghost predicate Verdict(region: array2<int>, labels: array2<int>, cells: set<Pos>, c: Option<Conn>)
    reads region, labels
  {
    && (c.None? <==> Exterior(labels, cells) || forall k :: PairCount(region, cells, k) == 0)
    && (c.Some? ==> c.value.kind == Wall && 0 < c.value.a < c.value.b && c.value.area >= 1)
    && (c.Some? ==> c.value.area == PairCount(region, cells, (c.value.a, c.value.b)))
    && (c.Some? ==> forall k :: PairCount(region, cells, k) > 0 ==> c.value.area <= PairCount(region, cells, k))
  }

  /** The connections a judgement records: its connection, if any. */
  function Listed(c: Option<Conn>): seq<Conn>
  {
    if c.Some? then [c.value] else []
  }

  /** Every connection of `log` stands for the segment of the same index in
      `segs`: the segment is visited, and judging it gives that connection. */
  ghost predicate Judged(region: array2<int>, labels: array2<int>, log: seq<Conn>, segs: seq<set<Pos>>, vis: set<Pos>)
    reads region, labels
  {
    |segs| == |log| && forall i :: 0 <= i < |log| ==> segs[i] <= vis && Verdict(region, labels, segs[i], Some(log[i]))
  }

  lemma JudgedGrow(region: array2<int>, labels: array2<int>, log: seq<Conn>, segs: seq<set<Pos>>,
                   vis: set<Pos>, vis': set<Pos>, cells: set<Pos>, c: Option<Conn>)
    requires Judged(region, labels, log, segs, vis) && vis <= vis' && cells <= vis'
    requires Verdict(region, labels, cells, c)
    ensures Judged(region, labels, log + Listed(c), segs + (if c.Some? then [cells] else []), vis')
  {
    var log', segs' := log + Listed(c), segs + (if c.Some? then [cells] else []);
    forall i | 0 <= i < |log'|
      ensures segs'[i] <= vis' && Verdict(region, labels, segs'[i], Some(log'[i]))
    {
      if i < |log| {
        assert segs'[i] == segs[i] && log'[i] == log[i];
      }
    }
  }

  /** What happens to a finished segment (lines 126-163): nothing when it
      touches the outside or no pair faces across it; otherwise a wall
      connection for a pair of least count, of extent that count. */
  method Judge(region: array2<int>, labels: array2<int>, segSet: set<Pos>) returns (c: Option<Conn>)
    requires forall q :: q in segSet ==> Inside(region, q)
    ensures Verdict(region, labels, segSet, c)
  {
    var ext := IsExterior(labels, segSet);
    if ext {
      c := None;
    } else {
      var pc := PairCounts(region, segSet);
      if |pc| == 0 {
        assert forall k :: Count(pc, k) == 0;
        c := None;
      } else {
        var best := MinPair(pc);
        c := Some(Conn(Wall, best.0, best.1, pc[best]));
        assert Count(pc, best) == pc[best];
        forall k | PairCount(region, segSet, k) > 0
          ensures pc[best] <= PairCount(region, segSet, k)
        {
          assert Count(pc, k) > 0;
        }
        assert PairCount(region, segSet, best) > 0;
      }
    }
  }

  /** The pass state: `vis` mirrors the visited grid, the map has replayed
      the log, and the log holds wall connections between positive ids. */
  ghost predicate ScanInv(visited: array2<bool>, wall: array2<int>, vis: set<Pos>,
                          edges0: EdgeMap, edges: EdgeMap, log: seq<Conn>)
    reads visited, wall
  {
    VisMatch(visited, vis, wall) && edges == Replay(edges0, log) && WallConns(log, true)
  }

  /** The segment of a ray that found room `other` (lines 98-163): it is
      widened, judged and, when judged a wall between two rooms, recorded. */
  method Found(region: array2<int>, wall: array2<int>, labels: array2<int>, visited: array2<bool>,
               rid: int, other: int, d: Dir, seg: seq<Pos>, base: Pos,
               edges0: EdgeMap, edges: EdgeMap, ghost log: seq<Conn>, ghost vis: set<Pos>)
    returns (edges': EdgeMap, ghost log': seq<Conn>, ghost vis': set<Pos>, ghost segment: set<Pos>,
             ghost k0: nat, ghost k1: nat, ghost s0: set<Pos>, c: Option<Conn>)
    modifies visited
    requires SameShape(region, wall) && SameShape(visited, region)
    requires forall i :: 0 <= i < |seg| ==> IsWall(wall, seg[i])
    requires ScanInv(visited, wall, vis, edges0, edges, log)
    ensures ScanInv(visited, wall, vis', edges0, edges', log')
    ensures vis' == vis + segment
    ensures s0 == old(RunAbsorbs(region, wall, rid, other, d, seg, vis))
    ensures Widened(d, seg, base, segment, k0, k1, s0)
    ensures Verdict(region, labels, segment, c)
    ensures log' == log + Listed(c)
  {
    var segSet;
    segSet, vis', k0, k1, s0 := Widen(region, wall, visited, rid, other, d, seg, base, vis);
    segment := segSet;
    edges', log', c := Settle(region, labels, segSet, edges0, edges, log);
  }

  /** Judging a finished segment and recording its connection, if any (lines 126-163). */
  method Settle(region: array2<int>, labels: array2<int>, segSet: set<Pos>,
                edges0: EdgeMap, edges: EdgeMap, ghost log: seq<Conn>)
    returns (edges': EdgeMap, ghost log': seq<Conn>, c: Option<Conn>)
    requires forall q :: q in segSet ==> Inside(region, q)
    requires edges == Replay(edges0, log) && WallConns(log, true)
    ensures Verdict(region, labels, segSet, c)
    ensures edges' == Replay(edges0, log') && WallConns(log', true)
    ensures log' == log + Listed(c)
  {
    c := Judge(region, labels, segSet);
    edges', log' := edges, log;
    if c.Some? {
      ReplayAppend(edges0, log, c.value);
      WallConnsSnoc(log, c.value, true);
      edges' := Add(edges, c.value);
      log' := log + [c.value];
    }
  }

  /** Pixel `n` can start a ray: an unvisited wall pixel (lines 72-75). */
  ghost predicate Opens(wall: array2<int>, vis: set<Pos>, n: Pos)
    reads wall
  {
    IsWall(wall, n) && n !in vis
  }

  /** One start (lines 70-163): boundary pixel `p` of room `rid` and
      direction `d`, with the ray starting at step `first`.  Only an
      unvisited wall pixel next to `p` starts a ray, and only a ray that
      found another room gives a segment: its run widened from the ray's last
      wall pixel, judged, and its connection recorded.  Otherwise nothing
      changes and `segment` is empty. */
  method ScanStart(region: array2<int>, wall: array2<int>, labels: array2<int>, visited: array2<bool>,
                   rid: int, p: Pos, d: Dir, first: nat,
                   edges0: EdgeMap, edges: EdgeMap, ghost log: seq<Conn>, ghost vis: set<Pos>)
    returns (edges': EdgeMap, ghost log': seq<Conn>, ghost vis': set<Pos>, ghost segment: set<Pos>,
             ghost k0: nat, ghost k1: nat, ghost s0: set<Pos>, ghost c: Option<Conn>,
             ghost opens: bool, ghost e: nat, ghost hit: Option<int>)
    modifies visited
    requires SameShape(region, wall) && SameShape(visited, region)
    requires ScanInv(visited, wall, vis, edges0, edges, log)
    ensures opens == old(Opens(wall, vis, Step(p, d)))
    ensures e == old(RayEnd(wall, p, d, first)) && hit == old(RayHit(region, wall, rid, p, d, first))
    ensures ScanInv(visited, wall, vis', edges0, edges', log')
    ensures vis' == vis + segment && log' == log + Listed(c)
    ensures !opens || hit.None? ==> c.None? && edges' == edges && segment == {}
    ensures opens && hit.Some? ==> s0 == old(RayAbsorbs(region, wall, rid, hit.value, p, d, first, e, vis))
    ensures opens && hit.Some? ==> Widened(d, Line(p, d, first, e), Move(p, d, e - 1), segment, k0, k1, s0)
    ensures Verdict(region, labels, segment, c)
    ensures old(first == 0 && rid != 0 && WallsUnlabelled(region, wall) && IsBoundary(region, rid, p)) ==>
      log' == log && vis' == vis
  {
    opens, e, hit := Opens(wall, vis, Step(p, d)), RayEnd(wall, p, d, first), RayHit(region, wall, rid, p, d, first);
    var n := Step(p, d);
    if Inside(wall, n) && wall[n.0, n.1] == 1 && !visited[n.0, n.1] {
      if first == 0 && rid != 0 && WallsUnlabelled(region, wall) && IsBoundary(region, rid, p) {
        AsWrittenRayMisses(region, wall, rid, p, d);
      }
      edges', log', vis', segment, k0, k1, s0, c := Cast(region, wall, labels, visited, rid, p, d, first,
                                                     edges0, edges, log, vis, e, hit);
    } else {
      edges', log', vis', segment, k0, k1, s0, c := edges, log, vis, {}, 0, 0, {}, None;
      NoVerdict(region, labels);
    }
  }

  /** Nothing is judged of the empty segment. */
  lemma NoVerdict(region: array2<int>, labels: array2<int>)
    ensures Verdict(region, labels, {}, None)
  {
    forall k
      ensures PairCount(region, {}, k) == 0
    {
      PairCountEmpty(region, k);
    }
  }

  /** The ray from an opening wall pixel (lines 77-163): when it finds
      another room, its run is widened, judged and recorded. */
  method Cast(region: array2<int>, wall: array2<int>, labels: array2<int>, visited: array2<bool>,
              rid: int, p: Pos, d: Dir, first: nat,
              edges0: EdgeMap, edges: EdgeMap, ghost log: seq<Conn>, ghost vis: set<Pos>,
              ghost e: nat, ghost hit: Option<int>)
    returns (edges': EdgeMap, ghost log': seq<Conn>, ghost vis': set<Pos>, ghost segment: set<Pos>,
             ghost k0: nat, ghost k1: nat, ghost s0: set<Pos>, ghost c: Option<Conn>)
    modifies visited
    requires SameShape(region, wall) && SameShape(visited, region)
    requires ScanInv(visited, wall, vis, edges0, edges, log)
    requires Opens(wall, vis, Step(p, d))
    requires e == RayEnd(wall, p, d, first) && hit == RayHit(region, wall, rid, p, d, first)
    ensures ScanInv(visited, wall, vis', edges0, edges', log')
    ensures vis' == vis + segment && log' == log + Listed(c)
    ensures hit.None? ==> c.None? && edges' == edges && segment == {}
    ensures hit.Some? ==> s0 == old(RayAbsorbs(region, wall, rid, hit.value, p, d, first, e, vis))
    ensures hit.Some? ==> Widened(d, Line(p, d, first, e), Move(p, d, e - 1), segment, k0, k1, s0)
    ensures Verdict(region, labels, segment, c)
  {
    var seg, other, last := Ray(region, wall, rid, p, d, first);
    assert RayEnd(wall, p, d, first) == e && other == hit;
    assert ScanInv(visited, wall, vis, edges0, edges, log);
    assert hit.Some? ==> RayAbsorbs(region, wall, rid, hit.value, p, d, first, e, vis)
                         == old(RayAbsorbs(region, wall, rid, hit.value, p, d, first, e, vis));
    edges', log', vis', segment, k0, k1, s0, c := Land(region, wall, labels, visited, rid, p, d, first, seg, other, last,
                                                 edges0, edges, log, vis, e);
  }

  /** What follows the ray (lines 92-163): a ray that found room `other`
      has its run, steps `first` up to `e` from `p`, widened from its last
      pixel, judged and recorded; any other ray changes nothing. */
  method Land(region: array2<int>, wall: array2<int>, labels: array2<int>, visited: array2<bool>,
              rid: int, p: Pos, d: Dir, first: nat, seg: seq<Pos>, other: Option<int>, last: Option<Pos>,
              edges0: EdgeMap, edges: EdgeMap, ghost log: seq<Conn>, ghost vis: set<Pos>, ghost e: nat)
    returns (edges': EdgeMap, ghost log': seq<Conn>, ghost vis': set<Pos>, ghost segment: set<Pos>,
             ghost k0: nat, ghost k1: nat, ghost s0: set<Pos>, ghost c: Option<Conn>)
    modifies visited
    requires SameShape(region, wall) && SameShape(visited, region)
    requires ScanInv(visited, wall, vis, edges0, edges, log)
    requires seg == Line(p, d, first, e) && (last.Some? <==> other.Some?)
    requires last.Some? ==> last.value == Move(p, d, e - 1)
    requires forall i :: 0 <= i < |seg| ==> IsWall(wall, seg[i])
    ensures ScanInv(visited, wall, vis', edges0, edges', log')
    ensures vis' == vis + segment && log' == log + Listed(c)
    ensures other.None? ==> c.None? && edges' == edges && segment == {}
    ensures other.Some? ==> s0 == old(RayAbsorbs(region, wall, rid, other.value, p, d, first, e, vis))
    ensures other.Some? ==> Widened(d, Line(p, d, first, e), Move(p, d, e - 1), segment, k0, k1, s0)
    ensures Verdict(region, labels, segment, c)
  {
    if other.Some? {
      edges', log', vis', segment, k0, k1, s0, c := Found(region, wall, labels, visited, rid, other.value, d, seg, last.value,
                                                    edges0, edges, log, vis);
    } else {
      edges', log', vis', segment, k0, k1, s0, c := edges, log, vis, {}, 0, 0, {}, None;
      NoVerdict(region, labels);
    }
  }

  /** The starts of room `rid` (lines 66-70): its boundary pixels in
      row-major order, each with its four neighbours in the scan order.
      Every connection recorded stands for a visited segment that judges to
      it. */
  method ScanRoom(region: array2<int>, wall: array2<int>, labels: array2<int>, visited: array2<bool>,
                  rid: int, first: nat, edges0: EdgeMap, edges: EdgeMap, ghost log: seq<Conn>,
                  ghost segs: seq<set<Pos>>, ghost vis: set<Pos>)
    returns (edges': EdgeMap, ghost log': seq<Conn>, ghost segs': seq<set<Pos>>, ghost vis': set<Pos>)
    modifies visited
    requires SameShape(region, wall) && SameShape(visited, region)
    requires ScanInv(visited, wall, vis, edges0, edges, log)
    requires Judged(region, labels, log, segs, vis)
    ensures ScanInv(visited, wall, vis', edges0, edges', log')
    ensures Judged(region, labels, log', segs', vis')
    ensures first == 0 && rid != 0 && WallsUnlabelled(region, wall) ==> log' == log
  {
    var bound := BoundaryMask(region, rid);
    assert MarksBoundary(bound, region, rid);
    edges', log', segs', vis' := edges, log, segs, vis;
    for x := 0 to region.Length0
      invariant ScanInv(visited, wall, vis', edges0, edges', log')
      invariant Judged(region, labels, log', segs', vis')
      invariant first == 0 && rid != 0 && WallsUnlabelled(region, wall) ==> log' == log
      invariant bound != visited && MarksBoundary(bound, region, rid)
    {
      for y := 0 to region.Length1
        invariant ScanInv(visited, wall, vis', edges0, edges', log')
        invariant Judged(region, labels, log', segs', vis')
        invariant first == 0 && rid != 0 && WallsUnlabelled(region, wall) ==> log' == log
        invariant bound != visited && MarksBoundary(bound, region, rid)
      {
        if bound[x, y] {
          Marked(bound, region, rid, (x, y));
          label pixel:
          edges', log', segs', vis' := PixelScan(region, wall, labels, visited, rid, (x, y), first,
                                                 edges0, edges', log', segs', vis');
          assert unchanged@pixel(region, wall, labels, bound);
        }
      }
    }
  }

  /** The four starts of boundary pixel `p`, in the scan order. */
  method PixelScan(region: array2<int>, wall: array2<int>, labels: array2<int>, visited: array2<bool>,
                   rid: int, p: Pos, first: nat, edges0: EdgeMap, edges: EdgeMap, ghost log: seq<Conn>,
                   ghost segs: seq<set<Pos>>, ghost vis: set<Pos>)
    returns (edges': EdgeMap, ghost log': seq<Conn>, ghost segs': seq<set<Pos>>, ghost vis': set<Pos>)
    modifies visited
    requires SameShape(region, wall) && SameShape(visited, region)
    requires IsBoundary(region, rid, p)
    requires ScanInv(visited, wall, vis, edges0, edges, log)
    requires Judged(region, labels, log, segs, vis)
    ensures ScanInv(visited, wall, vis', edges0, edges', log')
    ensures Judged(region, labels, log', segs', vis')
    ensures first == 0 && rid != 0 && WallsUnlabelled(region, wall) ==> log' == log
  {
    edges', log', segs', vis' := edges, log, segs, vis;
    for k := 0 to 4
      invariant IsBoundary(region, rid, p)
      invariant ScanInv(visited, wall, vis', edges0, edges', log')
      invariant Judged(region, labels, log', segs', vis')
      invariant first == 0 && rid != 0 && WallsUnlabelled(region, wall) ==> log' == log
    {
      label start:
      edges', log', segs', vis' := PixelStart(region, wall, labels, visited, rid, p, ScanOrder[k], first,
                                              edges0, edges', log', segs', vis');
      assert unchanged@start(region, wall, labels);
    }
  }

  /** One start of the room scan, with the recorded connection, if any,
      backed by its segment. */
  method PixelStart(region: array2<int>, wall: array2<int>, labels: array2<int>, visited: array2<bool>,
                    rid: int, p: Pos, d: Dir, first: nat, edges0: EdgeMap, edges: EdgeMap, ghost log: seq<Conn>,
                    ghost segs: seq<set<Pos>>, ghost vis: set<Pos>)
    returns (edges': EdgeMap, ghost log': seq<Conn>, ghost segs': seq<set<Pos>>, ghost vis': set<Pos>)
    modifies visited
    requires SameShape(region, wall) && SameShape(visited, region)
    requires ScanInv(visited, wall, vis, edges0, edges, log)
    requires Judged(region, labels, log, segs, vis)
    ensures ScanInv(visited, wall, vis', edges0, edges', log')
    ensures Judged(region, labels, log', segs', vis')
    ensures first == 0 && rid != 0 && WallsUnlabelled(region, wall) && IsBoundary(region, rid, p) ==> log' == log
  {
    ghost var segment, k0, k1, s0, c, opens, e, hit;
    label start:
    edges', log', vis', segment, k0, k1, s0, c, opens, e, hit := ScanStart(region, wall, labels, visited, rid, p, d, first,
                                                        edges0, edges, log, vis);
    assert unchanged@start(region, labels);
    segs' := segs + (if c.Some? then [segment] else []);
    JudgedGrow(region, labels, log, segs, vis, vis', segment, c);
  }

  /** The wall pass (lines 59-163), with the ray starting at step `first`:
      the rooms in increasing id order share one visited grid.  It records
      only wall connections between two distinct positive ids, each standing
      for a distinct visited wall segment that judges to it; started at step
      0, as written, it records nothing on a map whose wall pixels carry id 0. */
  method ScanPass(region: array2<int>, wall: array2<int>, labels: array2<int>, first: nat, edges: EdgeMap)
    returns (edges': EdgeMap, ghost log: seq<Conn>, ghost segs: seq<set<Pos>>)
    requires SameShape(region, wall) && SameShape(labels, region)
    ensures edges' == Replay(edges, log)
    ensures WallConns(log, true)
    ensures Judged(region, labels, log, segs, Cells(wall, 1))
    ensures first == 0 && WallsUnlabelled(region, wall) ==> log == []
  {
    var ids := RoomIdList(region);
    var visited := new bool[region.Length0, region.Length1]((x, y) => false);
    ghost var vis: set<Pos> := {};
    edges', log, segs := edges, [], [];
    for i := 0 to |ids|
      invariant ScanInv(visited, wall, vis, edges, edges', log)
      invariant Judged(region, labels, log, segs, vis)
      invariant first == 0 && WallsUnlabelled(region, wall) ==> log == []
    {
      var rid := ids[i];
      assert rid in ids;
      edges', log, segs, vis := ScanRoom(region, wall, labels, visited, rid, first, edges, edges', log, segs, vis);
    }
    JudgedWithin(region, labels, log, segs, vis, Cells(wall, 1));
  }

  lemma JudgedWithin(region: array2<int>, labels: array2<int>, log: seq<Conn>, segs: seq<set<Pos>>,
                     vis: set<Pos>, vis': set<Pos>)
    requires Judged(region, labels, log, segs, vis) && vis <= vis'
    ensures Judged(region, labels, log, segs, vis')
  {
  }
}
