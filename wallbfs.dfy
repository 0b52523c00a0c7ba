/** The wall pass of the main `detect_adjacency`: from every boundary pixel
    of every room, a breadth-first search runs through wall pixels while
    they keep touching only the room and at most one other room; a search
    that found that other room records one wall connection whose extent is
    the number of wall pixels it reached.  A global visited grid keeps any
    wall pixel from joining two searches. */
module WallBfs {
  import opened Grid
  import opened Edges
  import opened Boundary

  /** Looking from `q` in direction `d` makes `q` an outside pixel: the
      neighbour is off the grid, or it is not a wall pixel and has id 0. */
  predicate OuterAt(region: array2<int>, wall: array2<int>, q: Pos, d: Dir)
    reads region, wall
    requires SameShape(region, wall)
  {
    var n := Step(q, d);
    !Inside(region, n) || (Get(wall, n) != 1 && Get(region, n) == 0)
  }

  /** The room other than `rid` seen from `q` in direction `d`: the id of a
      neighbour that is on the grid, not a wall pixel and not 0 or `rid`. */
  function OtherAt(region: array2<int>, wall: array2<int>, q: Pos, d: Dir, rid: int): set<int>
    reads region, wall
    requires SameShape(region, wall)
  {
    var n := Step(q, d);
    if Inside(region, n) && Get(wall, n) != 1 && Get(region, n) != 0 && Get(region, n) != rid
    then {Get(region, n)} else {}
  }

  /** One of the first `k` directions of the scan order makes `q` outside. */
  predicate OuterUpTo(region: array2<int>, wall: array2<int>, q: Pos, k: nat)
    reads region, wall
    requires SameShape(region, wall) && k <= 4
  {
    k > 0 && (OuterUpTo(region, wall, q, k - 1) || OuterAt(region, wall, q, ScanOrder[k - 1]))
  }

  /** The other rooms seen in the first `k` directions of the scan order. */
  function OthersUpTo(region: array2<int>, wall: array2<int>, q: Pos, rid: int, k: nat): set<int>
    reads region, wall
    requires SameShape(region, wall) && k <= 4
  {
    if k == 0 then {} else OthersUpTo(region, wall, q, rid, k - 1) + OtherAt(region, wall, q, ScanOrder[k - 1], rid)
  }

  /** `q` touches the image edge or a non-wall pixel with id 0 (`is_outer`, `outer_flag`). */
  predicate Outer(region: array2<int>, wall: array2<int>, q: Pos)
    reads region, wall
    requires SameShape(region, wall)
  {
    OuterUpTo(region, wall, q, 4)
  }

  /** The rooms other than `rid` that `q` touches (`neighbor_regions`, `nbr_regions`). */
  function Others(region: array2<int>, wall: array2<int>, q: Pos, rid: int): set<int>
    reads region, wall
    requires SameShape(region, wall)
  {
    OthersUpTo(region, wall, q, rid, 4)
  }

  lemma {:induction false} OuterGrows(region: array2<int>, wall: array2<int>, q: Pos, k: nat)
    requires SameShape(region, wall) && k <= 4 && OuterUpTo(region, wall, q, k)
    ensures Outer(region, wall, q)
    decreases 4 - k
  {
    if k < 4 {
      OuterGrows(region, wall, q, k + 1);
    }
  }

  /** The other rooms are ids other than 0 and `rid`, positive on a map without negative ids. */
  lemma {:induction false} OthersFacts(region: array2<int>, wall: array2<int>, q: Pos, rid: int, k: nat)
    requires SameShape(region, wall) && k <= 4
    ensures forall o :: o in OthersUpTo(region, wall, q, rid, k) ==>
      o != 0 && o != rid && (NonNegative(region) ==> o > 0)
  {
    if k > 0 {
      OthersFacts(region, wall, q, rid, k - 1);
    }
  }

  /** The neighbour check run on a wall pixel (lines 98-113 and 147-159):
      the scan stops at the first direction that makes `q` outside, skips
      neighbouring wall pixels and collects the other rooms. */
  method Classify(region: array2<int>, wall: array2<int>, q: Pos, rid: int) returns (outer: bool, nbrs: set<int>)
    requires SameShape(region, wall)
    ensures outer == Outer(region, wall, q) == old(Outer(region, wall, q))
    ensures !outer ==> nbrs == Others(region, wall, q, rid) == old(Others(region, wall, q, rid))
  {
    outer, nbrs := false, {};
    var k := 0;
    while k < 4 && !outer
      invariant 0 <= k <= 4
      invariant outer == OuterUpTo(region, wall, q, k)
      invariant !outer ==> nbrs == OthersUpTo(region, wall, q, rid, k)
    {
      var n := Step(q, ScanOrder[k]);
      if !(0 <= n.0 < region.Length0 && 0 <= n.1 < region.Length1) {
        outer := true;
      } else if wall[n.0, n.1] == 1 {
      } else if region[n.0, n.1] == 0 {
        outer := true;
      } else if region[n.0, n.1] != rid {
        nbrs := nbrs + {region[n.0, n.1]};
      }
      k := k + 1;
    }
    if outer {
      OuterGrows(region, wall, q, k);
    }
  }

  /** The admission rule for a wall pixel that is not outside and touches
      the other rooms `s`, while the search has target room `enc`: the
      target after admitting it, or None when the pixel is turned away.  A
      pixel is admitted when it touches at most one other room and that room
      is the target, if there is one; an admitted pixel that touches a room
      while there is no target makes that room the target. */
  function Admit(enc: Option<int>, s: set<int>): (r: Option<Option<int>>)
    ensures r.Some? <==> |s| <= 1 && (enc.Some? ==> s <= {enc.value})
    ensures r.Some? ==> (enc.Some? ==> r.value == enc) && (s == {} ==> r.value == enc)
    ensures r.Some? ==> forall o :: o in s ==> r.value == Some(o)
    ensures r.Some? && enc.None? && r.value.Some? ==> r.value.value in s
  {
    if |s| > 1 then None
    else if |s| == 0 then Some(enc)
    else
      Single(s, Least(s));
      match enc
      case None => Some(Some(Least(s)))
      case Some(e) => if e in s then Some(enc) else None
  }

  /** A pixel that may belong to a segment of room `rid` with target `enc`:
      a wall pixel that is not outside and touches no room other than the target. */
  ghost predicate Admitted(region: array2<int>, wall: array2<int>, rid: int, p: Pos, enc: Option<int>)
    reads region, wall
    requires SameShape(region, wall)
  {
    Inside(region, p) && Get(wall, p) == 1 && !Outer(region, wall, p) &&
    forall o :: o in Others(region, wall, p, rid) ==> enc == Some(o)
  }

  /** A target room is an id other than 0 and `rid`, positive on a map without negative ids. */
  ghost predicate Target(region: array2<int>, rid: int, enc: Option<int>)
    reads region
  {
    enc.Some? ==> enc.value != 0 && enc.value != rid && (NonNegative(region) ==> enc.value > 0)
  }

  /** The state of one search that started with visited set `vis0`: the
      pixels it enqueued, `pushed`, are distinct, were unvisited before, are
      exactly what it added to the visited set, and are all admitted under the
      current target. */
  ghost predicate SegInv(region: array2<int>, wall: array2<int>, visited: array2<bool>, rid: int,
                         vis0: set<Pos>, vis: set<Pos>, pushed: seq<Pos>, enc: Option<int>)
    reads region, wall, visited
    requires SameShape(region, wall)
  {
    && VisMatch(visited, vis, wall)
    && NoDuplicates(pushed)
    && (forall p :: p in vis <==> p in vis0 || p in pushed)
    && (forall p :: p in pushed ==> p !in vis0 && Admitted(region, wall, rid, p, enc))
    && Target(region, rid, enc)
  }

  /** Every pixel of `s` after the first is a 4-neighbour of an earlier one,
      so `s` is 4-connected and every pixel is reached from `s[0]`. */
  ghost predicate Linked(s: seq<Pos>)
  {
    forall i :: 0 < i < |s| ==> LinkedAt(s, i)
  }

  /** Pixel `s[i]` is a 4-neighbour of a pixel listed before it. */
  ghost predicate LinkedAt(s: seq<Pos>, i: int)
    requires 0 <= i < |s|
  {
    exists j :: 0 <= j < i && Adjacent(s[j], s[i])
  }

  /** Appending a 4-neighbour of a listed pixel keeps a list linked. */
  lemma LinkedSnoc(s: seq<Pos>, n: Pos, from: int)
    requires Linked(s) && (s == [] || (0 <= from < |s| && Adjacent(s[from], n)))
    ensures Linked(s + [n])
  {
    var t := s + [n];
    forall i | 0 < i < |t|
      ensures LinkedAt(t, i)
    {
      if i < |s| {
        assert LinkedAt(s, i);
        var j :| 0 <= j < i && Adjacent(s[j], s[i]);
        assert t[j] == s[j] && t[i] == s[i];
      } else {
        assert t[from] == s[from] && t[i] == n;
      }
    }
  }

  /** Wall pixel `n` joins the search of room `rid` that has visited set
      `vis` and target `enc`: it is an unvisited wall pixel on the grid, not
      outside, and admitted by the rule. */
  ghost predicate Takes(region: array2<int>, wall: array2<int>, rid: int, vis: set<Pos>, enc: Option<int>, n: Pos)
    reads region, wall
    requires SameShape(region, wall)
  {
    Inside(region, n) && Get(wall, n) == 1 && n !in vis && !Outer(region, wall, n) &&
    Admit(enc, Others(region, wall, n, rid)).Some?
  }

  /** A pixel refused stays refused once more pixels are visited and the target is set. */
  lemma TakesKept(region: array2<int>, wall: array2<int>, rid: int, vis: set<Pos>, enc: Option<int>,
                  vis': set<Pos>, enc': Option<int>, n: Pos)
    requires SameShape(region, wall)
    requires vis <= vis' && (enc.Some? ==> enc' == enc)
    requires !Takes(region, wall, rid, vis, enc, n)
    ensures !Takes(region, wall, rid, vis', enc', n)
  {
  }

  /** Every neighbour of `p` is refused by the search. */
  ghost predicate ClosedAt(region: array2<int>, wall: array2<int>, rid: int, vis: set<Pos>, enc: Option<int>, p: Pos)
    reads region, wall
    requires SameShape(region, wall)
  {
    forall k :: 0 <= k < 4 ==> !Takes(region, wall, rid, vis, enc, Step(p, ScanOrder[k]))
  }

  /** Every neighbour of every pixel of `s` is refused by the search: `s` cannot grow. */
  ghost predicate Closed(region: array2<int>, wall: array2<int>, rid: int, vis: set<Pos>, enc: Option<int>, s: seq<Pos>)
    reads region, wall
    requires SameShape(region, wall)
  {
    forall p :: p in s ==> ClosedAt(region, wall, rid, vis, enc, p)
  }

  lemma ClosedKept(region: array2<int>, wall: array2<int>, rid: int, vis: set<Pos>, enc: Option<int>,
                   vis': set<Pos>, enc': Option<int>, s: seq<Pos>)
    requires SameShape(region, wall)
    requires vis <= vis' && (enc.Some? ==> enc' == enc)
    requires Closed(region, wall, rid, vis, enc, s)
    ensures Closed(region, wall, rid, vis', enc', s)
  {
    forall p, k | p in s && 0 <= k < 4
      ensures !Takes(region, wall, rid, vis', enc', Step(p, ScanOrder[k]))
    {
      assert ClosedAt(region, wall, rid, vis, enc, p);
      TakesKept(region, wall, rid, vis, enc, vis', enc', Step(p, ScanOrder[k]));
    }
  }

  /** The target, once set, is a room that some pixel of `s` touches. */
  ghost predicate Met(region: array2<int>, wall: array2<int>, rid: int, s: seq<Pos>, enc: Option<int>)
    reads region, wall
    requires SameShape(region, wall)
  {
    enc.Some? ==> exists p :: p in s && enc.value in Others(region, wall, p, rid)
  }

  lemma MetGrows(region: array2<int>, wall: array2<int>, rid: int, s: seq<Pos>, t: seq<Pos>, enc: Option<int>)
    requires SameShape(region, wall)
    requires Met(region, wall, rid, s, enc) && forall p :: p in s ==> p in t
    ensures Met(region, wall, rid, t, enc)
  {
  }

  /** One neighbour of the dequeued pixel `c` (lines 138-194): it joins the
      queue exactly when the search takes it; it is then marked visited,
      and the target becomes the one the rule gives. */
  method Look(region: array2<int>, wall: array2<int>, visited: array2<bool>, rid: int, c: Pos, d: Dir,
              ghost seg: seq<Pos>, queue: seq<Pos>, enc: Option<int>, ghost vis0: set<Pos>, ghost vis: set<Pos>)
    returns (queue': seq<Pos>, enc': Option<int>, ghost vis': set<Pos>)
    modifies visited
    requires SameShape(region, wall) && SameShape(visited, region)
    requires SegInv(region, wall, visited, rid, vis0, vis, seg + queue, enc)
    requires Met(region, wall, rid, seg + queue, enc)
    requires Linked(seg + queue) && seg != [] && seg[|seg| - 1] == c
    ensures SegInv(region, wall, visited, rid, vis0, vis', seg + queue', enc')
    ensures Met(region, wall, rid, seg + queue', enc')
    ensures Linked(seg + queue')
    ensures enc.Some? ==> enc' == enc
    ensures Takes(region, wall, rid, vis, enc, Step(c, d)) ==>
            queue' == queue + [Step(c, d)] && vis' == vis + {Step(c, d)} &&
            enc' == Admit(enc, Others(region, wall, Step(c, d), rid)).value
    ensures !Takes(region, wall, rid, vis, enc, Step(c, d)) ==> queue' == queue && vis' == vis && enc' == enc
    ensures vis <= vis' && |vis'| - |vis| == |queue'| - |queue|
  {
    var n := Step(c, d);
    queue', enc', vis' := queue, enc, vis;
    var take, r := Test(region, wall, visited, rid, n, enc, vis);
    if take {
      if enc.Some? {
        MetGrows(region, wall, rid, seg + queue, seg + queue + [n], enc);
      } else if r.Some? {
        assert n in seg + queue + [n];
      }
      StepIsAdjacent(c, d);
      queue', enc', vis' := Enqueue(region, wall, visited, rid, n, seg, queue, enc, r, vis0, vis, |seg| - 1);
    }
  }

  /** The checks of lines 141-191 on neighbour `n`: whether the search takes
      it, and the target after admitting it. */
  method Test(region: array2<int>, wall: array2<int>, visited: array2<bool>, rid: int, n: Pos,
              enc: Option<int>, ghost vis: set<Pos>)
    returns (take: bool, r: Option<int>)
    requires SameShape(region, wall) && SameShape(visited, region)
    requires VisMatch(visited, vis, wall) && Target(region, rid, enc)
    ensures take == Takes(region, wall, rid, vis, enc, n)
    ensures take ==> Inside(region, n) && !Get(visited, n) && r == Admit(enc, Others(region, wall, n, rid)).value
    ensures take ==> Admitted(region, wall, rid, n, r) && Target(region, rid, r)
    ensures take ==> (enc.Some? ==> r == enc) && (enc.None? && r.Some? ==> r.value in Others(region, wall, n, rid))
  {
    take, r := false, enc;
    if 0 <= n.0 < region.Length0 && 0 <= n.1 < region.Length1 && wall[n.0, n.1] == 1 && !visited[n.0, n.1] {
      var outer, nbrs := Classify(region, wall, n, rid);
      if !outer {
        var a := Admit(enc, nbrs);
        if a.Some? {
          OthersFacts(region, wall, n, rid, 4);
          take, r := true, a.value;
        }
      }
    }
  }

  /** Admitting pixel `n` under the new target `enc'`: mark it visited and append it to the queue. */
  method Enqueue(region: array2<int>, wall: array2<int>, visited: array2<bool>, rid: int, n: Pos,
                 ghost seg: seq<Pos>, queue: seq<Pos>, ghost enc: Option<int>, enc': Option<int>,
                 ghost vis0: set<Pos>, ghost vis: set<Pos>, ghost from: int)
    returns (queue': seq<Pos>, enc'': Option<int>, ghost vis': set<Pos>)
    modifies visited
    requires SameShape(region, wall) && SameShape(visited, region)
    requires SegInv(region, wall, visited, rid, vis0, vis, seg + queue, enc)
    requires Linked(seg + queue)
    requires seg + queue == [] || (0 <= from < |seg + queue| && Adjacent((seg + queue)[from], n))
    requires Inside(region, n) && !Get(visited, n)
    requires Admitted(region, wall, rid, n, enc') && Target(region, rid, enc')
    requires enc.Some? ==> enc' == enc
    requires Met(region, wall, rid, seg + queue + [n], enc')
    ensures SegInv(region, wall, visited, rid, vis0, vis', seg + queue', enc'')
    ensures Met(region, wall, rid, seg + queue', enc'')
    ensures Linked(seg + queue')
    ensures enc'' == enc' && queue' == queue + [n] && vis' == vis + {n} && |vis'| == |vis| + 1
    ensures Takes(region, wall, rid, vis, enc, n) == old(Takes(region, wall, rid, vis, enc, n))
    ensures Others(region, wall, n, rid) == old(Others(region, wall, n, rid))
  {
    ghost var pushed := seg + queue;
    assert n !in vis && n in Cells(wall, 1);
    NoDuplicatesConcat(pushed, [n]);
    LinkedSnoc(pushed, n, from);
    AdmittedKept(region, wall, rid, pushed, enc, enc');
    label admitted:
    visited[n.0, n.1] := true;
    assert unchanged@admitted(region, wall);
    queue', enc'', vis' := queue + [n], enc', vis + {n};
    assert VisMatch(visited, vis', wall);
    assert seg + queue' == pushed + [n];
  }

  /** Setting the target keeps every pixel admitted so far admitted. */
  lemma AdmittedKept(region: array2<int>, wall: array2<int>, rid: int, pushed: seq<Pos>, enc: Option<int>, enc': Option<int>)
    requires SameShape(region, wall)
    requires forall p :: p in pushed ==> Admitted(region, wall, rid, p, enc)
    requires enc.Some? ==> enc' == enc
    ensures forall p :: p in pushed ==> Admitted(region, wall, rid, p, enc')
  {
  }

  /** The search from one starting wall pixel (lines 127-194), with the
      target `enc0` the start's own check gave: every pixel it reaches is
      admitted under the final target, the target, once set, stays and is
      a room the segment touches, and no neighbour of the segment is one
      the search would still take. */
  method Segment(region: array2<int>, wall: array2<int>, visited: array2<bool>, rid: int, start: Pos,
                 enc0: Option<int>, ghost vis0: set<Pos>)
    returns (seg: seq<Pos>, enc: Option<int>, ghost vis: set<Pos>)
    modifies visited
    requires SameShape(region, wall) && SameShape(visited, region)
    requires VisMatch(visited, vis0, wall)
    requires start !in vis0 && Admitted(region, wall, rid, start, enc0) && Target(region, rid, enc0)
    requires enc0.Some? ==> enc0.value in Others(region, wall, start, rid)
    ensures SegInv(region, wall, visited, rid, vis0, vis, seg, enc)
    ensures start in seg && seg[0] == start && Linked(seg)
    ensures enc0.Some? ==> enc == enc0
    ensures Met(region, wall, rid, seg, enc)
    ensures Closed(region, wall, rid, vis, enc, seg)
    ensures Target(region, rid, enc)
  {
    var queue;
    assert start in [] + [] + [start];
    queue, enc, vis := Enqueue(region, wall, visited, rid, start, [], [], enc0, enc0, vis0, vis0, 0);
    seg := [];
    ghost var cells := Cells(wall, 1);
    SubsetCard(vis, cells);
    while queue != []
      invariant SegInv(region, wall, visited, rid, vis0, vis, seg + queue, enc)
      invariant Met(region, wall, rid, seg + queue, enc)
      invariant Closed(region, wall, rid, vis, enc, seg)
      invariant Linked(seg + queue) && seg + queue != [] && (seg + queue)[0] == start
      invariant start in vis
      invariant enc0.Some? ==> enc == enc0
      invariant cells == Cells(wall, 1) && |vis| <= |cells|
      decreases 2 * (|cells| - |vis|) + |queue|
    {
      ghost var (vs, q) := (vis, |queue|);
      label expand:
      seg, queue, enc, vis := Expand(region, wall, visited, rid, seg, queue, enc, vis0, vis);
      assert unchanged@expand(region, wall);
      SubsetCard(vis, cells);
      SubsetCard(vs, vis);
    }
    AppendEmpty(seg, queue);
  }

  /** Dequeuing the head `c` of the queue onto the segment and looking at
      its four neighbours in the scan order; afterwards `c` cannot grow
      the segment either. */
  method Expand(region: array2<int>, wall: array2<int>, visited: array2<bool>, rid: int,
                seg: seq<Pos>, queue: seq<Pos>, enc: Option<int>, ghost vis0: set<Pos>, ghost vis: set<Pos>)
    returns (seg': seq<Pos>, queue': seq<Pos>, enc': Option<int>, ghost vis': set<Pos>)
    modifies visited
    requires SameShape(region, wall) && SameShape(visited, region) && queue != []
    requires SegInv(region, wall, visited, rid, vis0, vis, seg + queue, enc)
    requires Met(region, wall, rid, seg + queue, enc)
    requires Closed(region, wall, rid, vis, enc, seg)
    requires Linked(seg + queue)
    ensures SegInv(region, wall, visited, rid, vis0, vis', seg' + queue', enc')
    ensures Met(region, wall, rid, seg' + queue', enc')
    ensures Closed(region, wall, rid, vis', enc', seg')
    ensures Linked(seg' + queue') && seg' == seg + [queue[0]]
    ensures enc.Some? ==> enc' == enc
    ensures vis <= vis' && |vis'| - |vis| == |queue'| + 1 - |queue|
  {
    ShiftFront(seg, queue);
    var c := queue[0];
    queue' := queue[1..];
    seg' := seg + [c];
    enc', vis' := enc, vis;
    for k := 0 to 4
      invariant SegInv(region, wall, visited, rid, vis0, vis', seg' + queue', enc')
      invariant Met(region, wall, rid, seg' + queue', enc')
      invariant Closed(region, wall, rid, vis', enc', seg)
      invariant Linked(seg' + queue')
      invariant forall j :: 0 <= j < k ==> !Takes(region, wall, rid, vis', enc', Step(c, ScanOrder[j]))
      invariant enc.Some? ==> enc' == enc
      invariant vis <= vis' && |vis'| - |vis| == |queue'| + 1 - |queue|
    {
      ghost var (v, e) := (vis', enc');
      label look:
      queue', enc', vis' := Look(region, wall, visited, rid, c, ScanOrder[k], seg', queue', enc', vis0, vis');
      assert unchanged@look(region, wall);
      LookFacts(region, wall, rid, c, seg, k, v, e, vis', enc');
    }
    ClosedSnoc(region, wall, rid, vis', enc', seg, c);
  }

  /** The refusals after one more neighbour of `c` was looked at. */
  lemma LookFacts(region: array2<int>, wall: array2<int>, rid: int, c: Pos, done: seq<Pos>, k: nat,
                  vis: set<Pos>, enc: Option<int>, vis': set<Pos>, enc': Option<int>)
    requires SameShape(region, wall) && k < 4
    requires vis <= vis' && (enc.Some? ==> enc' == enc)
    requires Closed(region, wall, rid, vis, enc, done)
    requires forall j :: 0 <= j < k ==> !Takes(region, wall, rid, vis, enc, Step(c, ScanOrder[j]))
    requires Takes(region, wall, rid, vis, enc, Step(c, ScanOrder[k])) ==> Step(c, ScanOrder[k]) in vis'
    requires !Takes(region, wall, rid, vis, enc, Step(c, ScanOrder[k])) ==> vis' == vis && enc' == enc
    ensures Closed(region, wall, rid, vis', enc', done)
    ensures forall j :: 0 <= j < k + 1 ==> !Takes(region, wall, rid, vis', enc', Step(c, ScanOrder[j]))
  {
    ClosedKept(region, wall, rid, vis, enc, vis', enc', done);
    forall j | 0 <= j < k
      ensures !Takes(region, wall, rid, vis', enc', Step(c, ScanOrder[j]))
    {
      TakesKept(region, wall, rid, vis, enc, vis', enc', Step(c, ScanOrder[j]));
    }
  }

  lemma ClosedSnoc(region: array2<int>, wall: array2<int>, rid: int, vis: set<Pos>, enc: Option<int>, done: seq<Pos>, c: Pos)
    requires SameShape(region, wall)
    requires Closed(region, wall, rid, vis, enc, done)
    requires forall j :: 0 <= j < 4 ==> !Takes(region, wall, rid, vis, enc, Step(c, ScanOrder[j]))
    ensures Closed(region, wall, rid, vis, enc, done + [c])
  {
    assert ClosedAt(region, wall, rid, vis, enc, c);
  }

  lemma AppendEmpty(seg: seq<Pos>, queue: seq<Pos>)
    requires queue == []
    ensures seg + queue == seg
  {
  }

  /** Moving the head of the queue to the end of the segment keeps their concatenation. */
  lemma ShiftFront(seg: seq<Pos>, queue: seq<Pos>)
    requires queue != []
    ensures (seg + [queue[0]]) + queue[1..] == seg + queue
  {
  }

  /** The pass state: the visited pixels are wall pixels, the wall extent
      recorded so far is at most their number, the map has replayed the log,
      and the log holds valid wall connections. */
  ghost predicate PassInv(region: array2<int>, wall: array2<int>, visited: array2<bool>, vis: set<Pos>,
                          edges0: EdgeMap, edges: EdgeMap, log: seq<Conn>)
    reads region, wall, visited
  {
    && VisMatch(visited, vis, wall)
    && LogWallArea(log) <= |vis|
    && edges == Replay(edges0, log)
    && WallConns(log, NonNegative(region))
  }

  lemma DisjointCard(vis: set<Pos>, seg: seq<Pos>, vis': set<Pos>)
    requires NoDuplicates(seg)
    requires forall p :: p in seg ==> p !in vis
    requires forall p :: p in vis' <==> p in vis || p in seg
    ensures |vis'| == |vis| + |seg|
  {
    ElemsCard(seg);
    assert vis' == vis + Elems(seg);
    assert vis * Elems(seg) == {};
  }

  /** A start that is outside or between several rooms is only marked visited. */
  method Mark(region: array2<int>, wall: array2<int>, visited: array2<bool>, ghost rid: int, n: Pos,
              edges0: EdgeMap, edges: EdgeMap, ghost log: seq<Conn>, ghost segs: seq<set<Pos>>, ghost vis: set<Pos>)
    returns (ghost vis': set<Pos>)
    modifies visited
    requires SameShape(region, wall) && SameShape(visited, region)
    requires PassInv(region, wall, visited, vis, edges0, edges, log)
    requires Backed(region, wall, log, segs, vis)
    requires Inside(wall, n) && Get(wall, n) == 1 && n !in vis
    ensures vis' == vis + {n}
    ensures PassInv(region, wall, visited, vis', edges0, edges, log)
    ensures Backed(region, wall, log, segs, vis')
  {
    BackedGrow(region, wall, log, segs, vis, vis + {n});
    label marked:
    visited[n.0, n.1] := true;
    assert unchanged@marked(region, wall);
    vis' := vis + {n};
    assert n in Cells(wall, 1);
    assert |vis'| == |vis| + 1;
  }

  /** `seg` is the segment a search of room `rid` grew from `n` on top of
      the visited set `vis`, ending with visited set `vis'` and target
      `enc`: distinct pixels, exactly the newly visited ones, each admitted
      under the target, the target a room the segment touches, and no
      neighbour of the segment one the search would still take. */
  ghost predicate Grown(region: array2<int>, wall: array2<int>, rid: int, n: Pos, vis: set<Pos>, vis': set<Pos>,
                        seg: seq<Pos>, enc: Option<int>)
    reads region, wall
    requires SameShape(region, wall)
  {
    && n in seg && seg[0] == n && Linked(seg) && NoDuplicates(seg)
    && (forall p :: p in vis' <==> p in vis || p in seg)
    && (forall p :: p in seg ==> p !in vis && Admitted(region, wall, rid, p, enc))
    && Target(region, rid, enc)
    && Met(region, wall, rid, seg, enc)
    && Closed(region, wall, rid, vis', enc, seg)
  }

  /** The connection a finished search records (lines 197-207): a wall
      connection from `rid` to the target of extent the number of distinct
      pixels reached, or nothing when no target was found. */
  function Recorded(rid: int, seg: seq<Pos>, enc: Option<int>): (r: seq<Conn>)
    ensures |r| <= 1 && (r == [] <==> enc.None?)
  {
    if enc.Some? then [Conn(Wall, rid, enc.value, |Elems(seg)|)] else []
  }

  /** The search from an admitted start `n` and, when it met a target room,
      the wall connection it records. */
  method Search(region: array2<int>, wall: array2<int>, visited: array2<bool>, rid: int, n: Pos, nbrs: set<int>,
                edges0: EdgeMap, edges: EdgeMap, ghost log: seq<Conn>, ghost segs: seq<set<Pos>>, ghost vis: set<Pos>)
    returns (edges': EdgeMap, ghost log': seq<Conn>, ghost vis': set<Pos>, ghost seg: seq<Pos>, ghost enc: Option<int>)
    modifies visited
    requires SameShape(region, wall) && SameShape(visited, region)
    requires rid != 0 && (NonNegative(region) ==> rid > 0)
    requires PassInv(region, wall, visited, vis, edges0, edges, log)
    requires Backed(region, wall, log, segs, vis) && Beside(region, rid, n)
    requires Inside(wall, n) && Get(wall, n) == 1 && n !in vis
    requires !Outer(region, wall, n) && nbrs == Others(region, wall, n, rid) && |nbrs| <= 1
    ensures PassInv(region, wall, visited, vis', edges0, edges', log')
    ensures Grown(region, wall, rid, n, vis, vis', seg, enc)
    ensures log' == log + Recorded(rid, seg, enc)
    ensures Backed(region, wall, log', segs + Found(seg, enc), vis')
  {
    OthersFacts(region, wall, n, rid, 4);
    var enc0 := Admit(None, nbrs).value;
    var found, target;
    ghost var pos := NonNegative(region);
    label grow:
    found, target, vis' := Segment(region, wall, visited, rid, n, enc0, vis);
    assert unchanged@grow(region, wall);
    assert pos == NonNegative(region);
    seg, enc := found, target;
    BackedRecord(region, wall, rid, n, log, segs, vis, vis', seg, enc);
    DisjointCard(vis, found, vis');
    edges', log' := edges, log + Recorded(rid, found, target);
    if target.Some? {
      edges' := Add(edges, Conn(Wall, rid, target.value, |Elems(found)|));
    }
    RecordFacts(pos, rid, edges0, log, vis, vis', found, n, target);
  }

  /** `q` is next to a boundary pixel of room `rid`. */
  ghost predicate Beside(region: array2<int>, rid: int, q: Pos)
    reads region
  {
    exists d: Dir :: IsBoundary(region, rid, Step(q, d))
  }

  /** Recorded wall connection `c` stands for the segment `S`: its extent is
      the number of pixels of `S`, every pixel of `S` is a wall pixel that is
      not outside and touches no room but `c.a` and `c.b`, some pixel
      touches `c.b` and some pixel is next to the boundary of `c.a`. */
  ghost predicate WallEntry(region: array2<int>, wall: array2<int>, c: Conn, S: set<Pos>)
    reads region, wall
    requires SameShape(region, wall)
  {
    && c.kind == Wall && c.area == |S|
    && (forall p :: p in S ==> Admitted(region, wall, c.a, p, Some(c.b)))
    && (exists p :: p in S && c.b in Others(region, wall, p, c.a))
    && (exists p :: p in S && Beside(region, c.a, p))
    && (exists s :: Elems(s) == S && Linked(s) && s != [] && Beside(region, c.a, s[0]))
  }

  /** Every entry of the log stands for its own segment of `segs`; the
      segments are visited and pairwise disjoint. */
  ghost predicate Backed(region: array2<int>, wall: array2<int>, log: seq<Conn>, segs: seq<set<Pos>>, vis: set<Pos>)
    reads region, wall
    requires SameShape(region, wall)
  {
    && |segs| == |log|
    && (forall i :: 0 <= i < |log| ==> WallEntry(region, wall, log[i], segs[i]) && segs[i] <= vis)
    && (forall i, j :: 0 <= i < j < |segs| ==> segs[i] !! segs[j])
  }

  /** The segment, as a set, that a finished search adds to `segs`. */
  function Found(seg: seq<Pos>, enc: Option<int>): seq<set<Pos>>
  {
    if enc.Some? then [Elems(seg)] else []
  }

  lemma BackedGrow(region: array2<int>, wall: array2<int>, log: seq<Conn>, segs: seq<set<Pos>>, vis: set<Pos>, vis': set<Pos>)
    requires SameShape(region, wall) && vis <= vis'
    requires Backed(region, wall, log, segs, vis)
    ensures Backed(region, wall, log, segs, vis')
  {
  }

  /** A search from a start next to the boundary of `rid` keeps every entry backed. */
  lemma BackedRecord(region: array2<int>, wall: array2<int>, rid: int, n: Pos, log: seq<Conn>, segs: seq<set<Pos>>,
                     vis: set<Pos>, vis': set<Pos>, seg: seq<Pos>, enc: Option<int>)
    requires SameShape(region, wall)
    requires Backed(region, wall, log, segs, vis)
    requires Grown(region, wall, rid, n, vis, vis', seg, enc) && Beside(region, rid, n)
    ensures Backed(region, wall, log + Recorded(rid, seg, enc), segs + Found(seg, enc), vis')
  {
    BackedGrow(region, wall, log, segs, vis, vis');
    if enc.Some? {
      var c, S := Conn(Wall, rid, enc.value, |Elems(seg)|), Elems(seg);
      var w :| w in seg && enc.value in Others(region, wall, w, rid);
      assert w in S;
      assert n in S && seg[0] == n && Linked(seg);
      assert WallEntry(region, wall, c, S);
      forall i | 0 <= i < |segs|
        ensures segs[i] !! S
      {
        assert segs[i] <= vis;
      }
    }
  }

  /** What a finished search adds to the pass state. */
  lemma RecordFacts(pos: bool, rid: int, edges0: EdgeMap, log: seq<Conn>,
                    vis: set<Pos>, vis': set<Pos>, seg: seq<Pos>, n: Pos, enc: Option<int>)
    requires NoDuplicates(seg) && n in seg && |vis'| == |vis| + |seg|
    requires LogWallArea(log) <= |vis| && WallConns(log, pos)
    requires rid != 0 && (pos ==> rid > 0)
    requires enc.Some? ==> enc.value != 0 && enc.value != rid && (pos ==> enc.value > 0)
    ensures Replay(edges0, log + Recorded(rid, seg, enc)) ==
            if enc.Some? then Add(Replay(edges0, log), Conn(Wall, rid, enc.value, |Elems(seg)|)) else Replay(edges0, log)
    ensures LogWallArea(log + Recorded(rid, seg, enc)) <= |vis'|
    ensures WallConns(log + Recorded(rid, seg, enc), pos)
  {
    if enc.Some? {
      var c := Conn(Wall, rid, enc.value, |Elems(seg)|);
      assert log + Recorded(rid, seg, enc) == log + [c];
      ElemsCard(seg);
      assert n in Elems(seg);
      ReplayAppend(edges0, log, c);
      LogWallAreaSnoc(log, c);
      WallConnsSnoc(log, c, pos);
    } else {
      assert log + Recorded(rid, seg, enc) == log;
    }
  }

  /** An unvisited wall pixel on the grid: where a search may start. */
  ghost predicate Start(region: array2<int>, wall: array2<int>, vis: set<Pos>, n: Pos)
    reads wall
    requires SameShape(region, wall)
  {
    Inside(region, n) && Get(wall, n) == 1 && n !in vis
  }

  /** One start (lines 82-207): the wall pixel next to boundary pixel `p` in
      direction `d`.  An unvisited wall pixel that is outside or touches two
      or more other rooms is only marked visited; otherwise a search runs
      from it, and records a wall connection between `rid` and the target
      room, of extent the number of distinct pixels reached, when it found
      one.  Any other neighbour changes nothing. */
  method TryStart(region: array2<int>, wall: array2<int>, visited: array2<bool>, rid: int, p: Pos, d: Dir,
                  edges0: EdgeMap, edges: EdgeMap, ghost log: seq<Conn>, ghost segs: seq<set<Pos>>, ghost vis: set<Pos>)
    returns (edges': EdgeMap, ghost log': seq<Conn>, ghost segs': seq<set<Pos>>, ghost vis': set<Pos>,
             ghost seg: seq<Pos>, ghost enc: Option<int>)
    modifies visited
    requires SameShape(region, wall) && SameShape(visited, region)
    requires rid != 0 && (NonNegative(region) ==> rid > 0) && IsBoundary(region, rid, p)
    requires PassInv(region, wall, visited, vis, edges0, edges, log)
    requires Backed(region, wall, log, segs, vis)
    ensures PassInv(region, wall, visited, vis', edges0, edges', log')
    ensures Backed(region, wall, log', segs', vis')
    ensures old(!Start(region, wall, vis, Step(p, d))) ==> log' == log && vis' == vis
    ensures old(Start(region, wall, vis, Step(p, d)) &&
                (Outer(region, wall, Step(p, d)) || |Others(region, wall, Step(p, d), rid)| > 1)) ==>
            log' == log && vis' == vis + {Step(p, d)}
    ensures old(Start(region, wall, vis, Step(p, d)) &&
                !Outer(region, wall, Step(p, d)) && |Others(region, wall, Step(p, d), rid)| <= 1) ==>
            Grown(region, wall, rid, Step(p, d), vis, vis', seg, enc) && log' == log + Recorded(rid, seg, enc)
  {
    var n := Step(p, d);
    edges', log', segs', vis', seg, enc := edges, log, segs, vis, [], None;
    if 0 <= n.0 < region.Length0 && 0 <= n.1 < region.Length1 && wall[n.0, n.1] == 1 && !visited[n.0, n.1] {
      StepIsAdjacent(p, d);
      assert IsBoundary(region, rid, Step(n, Opposite(d)));
      edges', log', segs', vis', seg, enc := Launch(region, wall, visited, rid, n, edges0, edges, log, segs, vis);
    }
  }

  /** An unvisited wall pixel `n` next to the boundary of `rid`: marked
      visited when it is outside or touches two or more other rooms, the
      start of a search otherwise. */
  method Launch(region: array2<int>, wall: array2<int>, visited: array2<bool>, rid: int, n: Pos,
                edges0: EdgeMap, edges: EdgeMap, ghost log: seq<Conn>, ghost segs: seq<set<Pos>>, ghost vis: set<Pos>)
    returns (edges': EdgeMap, ghost log': seq<Conn>, ghost segs': seq<set<Pos>>, ghost vis': set<Pos>,
             ghost seg: seq<Pos>, ghost enc: Option<int>)
    modifies visited
    requires SameShape(region, wall) && SameShape(visited, region)
    requires rid != 0 && (NonNegative(region) ==> rid > 0) && Beside(region, rid, n)
    requires PassInv(region, wall, visited, vis, edges0, edges, log)
    requires Backed(region, wall, log, segs, vis)
    requires Start(region, wall, vis, n)
    ensures PassInv(region, wall, visited, vis', edges0, edges', log')
    ensures Backed(region, wall, log', segs', vis')
    ensures old(Outer(region, wall, n) || |Others(region, wall, n, rid)| > 1) ==> log' == log && vis' == vis + {n}
    ensures old(!Outer(region, wall, n) && |Others(region, wall, n, rid)| <= 1) ==>
            Grown(region, wall, rid, n, vis, vis', seg, enc) && log' == log + Recorded(rid, seg, enc)
  {
    edges', segs', seg, enc := edges, segs, [], None;
    var outer, nbrs := Classify(region, wall, n, rid);
    if outer || |nbrs| > 1 {
      log' := log;
      vis' := Mark(region, wall, visited, rid, n, edges0, edges, log, segs, vis);
    } else {
      edges', log', vis', seg, enc := Search(region, wall, visited, rid, n, nbrs, edges0, edges, log, segs, vis);
      segs' := segs + Found(seg, enc);
    }
  }

  /** The four starts next to boundary pixel `p` of room `rid`, in the scan order. */
  method PixelWalls(region: array2<int>, wall: array2<int>, visited: array2<bool>, rid: int, p: Pos,
                    edges0: EdgeMap, edges: EdgeMap, ghost log: seq<Conn>, ghost segs: seq<set<Pos>>, ghost vis: set<Pos>)
    returns (edges': EdgeMap, ghost log': seq<Conn>, ghost segs': seq<set<Pos>>, ghost vis': set<Pos>)
    modifies visited
    requires SameShape(region, wall) && SameShape(visited, region)
    requires rid != 0 && (NonNegative(region) ==> rid > 0) && IsBoundary(region, rid, p)
    requires PassInv(region, wall, visited, vis, edges0, edges, log)
    requires Backed(region, wall, log, segs, vis)
    ensures PassInv(region, wall, visited, vis', edges0, edges', log')
    ensures Backed(region, wall, log', segs', vis')
  {
    edges', log', segs', vis' := edges, log, segs, vis;
    for k := 0 to 4
      invariant PassInv(region, wall, visited, vis', edges0, edges', log')
      invariant Backed(region, wall, log', segs', vis')
      invariant IsBoundary(region, rid, p) && NonNegative(region) == old(NonNegative(region))
    {
      ghost var seg, enc;
      label start:
      edges', log', segs', vis', seg, enc :=
        TryStart(region, wall, visited, rid, p, ScanOrder[k], edges0, edges', log', segs', vis');
      assert unchanged@start(region, wall);
    }
  }

  /** The starts of room `rid`: its boundary pixels in row-major order, each
      with its four neighbours in the scan order. */
  method RoomWalls(region: array2<int>, wall: array2<int>, visited: array2<bool>, rid: int,
                   edges0: EdgeMap, edges: EdgeMap, ghost log: seq<Conn>, ghost segs: seq<set<Pos>>, ghost vis: set<Pos>)
    returns (edges': EdgeMap, ghost log': seq<Conn>, ghost segs': seq<set<Pos>>, ghost vis': set<Pos>)
    modifies visited
    requires SameShape(region, wall) && SameShape(visited, region)
    requires rid != 0 && (NonNegative(region) ==> rid > 0)
    requires PassInv(region, wall, visited, vis, edges0, edges, log)
    requires Backed(region, wall, log, segs, vis)
    ensures PassInv(region, wall, visited, vis', edges0, edges', log')
    ensures Backed(region, wall, log', segs', vis')
  {
    var bound := BoundaryMask(region, rid);
    assert MarksBoundary(bound, region, rid);
    edges', log', segs', vis' := edges, log, segs, vis;
    for x := 0 to region.Length0
      invariant PassInv(region, wall, visited, vis', edges0, edges', log')
      invariant Backed(region, wall, log', segs', vis')
      invariant bound != visited
      invariant MarksBoundary(bound, region, rid)
    {
      for y := 0 to region.Length1
        invariant PassInv(region, wall, visited, vis', edges0, edges', log')
        invariant Backed(region, wall, log', segs', vis')
        invariant bound != visited
        invariant MarksBoundary(bound, region, rid)
      {
        if bound[x, y] {
          Marked(bound, region, rid, (x, y));
          edges', log', segs', vis' := PixelWalls(region, wall, visited, rid, (x, y), edges0, edges', log', segs', vis');
        }
      }
    }
  }

  /** The wall pass: the rooms in increasing id order share one visited
      grid.  It records only valid wall connections, each standing for its
      own segment of wall pixels between its two rooms; no wall pixel
      belongs to two segments, so the total extent is at most the number
      of wall pixels. */
  method WallPass(region: array2<int>, wall: array2<int>, edges: EdgeMap)
    returns (edges': EdgeMap, ghost log: seq<Conn>, ghost segs: seq<set<Pos>>)
    requires SameShape(region, wall)
    ensures edges' == Replay(edges, log)
    ensures WallConns(log, NonNegative(region))
    ensures LogWallArea(log) <= |Cells(wall, 1)|
    ensures Backed(region, wall, log, segs, Cells(wall, 1))
  {
    var ids := RoomIdList(region);
    var visited := new bool[region.Length0, region.Length1]((x, y) => false);
    ghost var vis: set<Pos> := {};
    edges', log, segs := edges, [], [];
    for i := 0 to |ids|
      invariant PassInv(region, wall, visited, vis, edges, edges', log)
      invariant Backed(region, wall, log, segs, vis)
    {
      var rid := ids[i];
      assert rid in ids;
      if NonNegative(region) {
        var q :| Inside(region, q) && Get(region, q) == rid;
      }
      edges', log, segs, vis := RoomWalls(region, wall, visited, rid, edges, edges', log, segs, vis);
    }
    SubsetCard(vis, Cells(wall, 1));
    BackedGrow(region, wall, log, segs, vis, Cells(wall, 1));
  }
}
