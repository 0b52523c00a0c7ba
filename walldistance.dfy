/** The wall pass of the earlier `detect_adjacency` (test/detect_adjacency_v1.py):
    for each room, a breadth-first search through the wall mask starts at
    once from every unvisited mask pixel of the room's 4-dilation, at
    distance 1, and records one wall connection of extent equal to the
    current distance each time a searched pixel touches another room.  The
    visited grid is shared by all rooms; the distance grid is fresh per room. */
module WallDistance {
  import opened Grid
  import opened Boundary
  import opened Edges

  /** `wall_mask` (line 92): a pixel with a nonzero wall value and no door or window icon. */
  predicate InMask(wall: array2<int>, icon: array2<int>, q: Pos)
    reads wall, icon
  {
    Inside(wall, q) && Inside(icon, q) && Get(wall, q) != 0 && Get(icon, q) == 0
  }

  /** The pixels of the wall mask. */
  function MaskSet(wall: array2<int>, icon: array2<int>): (s: set<Pos>)
    reads wall, icon
    ensures forall p {:trigger p in s} :: p in s <==> InMask(wall, icon, p)
  {
    set p | p in AllPixels(wall.Length0, wall.Length1) && InMask(wall, icon, p)
  }

  /** Every pixel of the wall mask is in `mask`. */
  ghost predicate Covers(wall: array2<int>, icon: array2<int>, mask: set<Pos>)
    reads wall, icon
  {
    forall p {:trigger InMask(wall, icon, p)} :: InMask(wall, icon, p) ==> p in mask
  }

  /** Every pixel of `mask` is in the wall mask. */
  ghost predicate Within(wall: array2<int>, icon: array2<int>, mask: set<Pos>)
    reads wall, icon
  {
    forall p {:trigger InMask(wall, icon, p)} :: p in mask ==> InMask(wall, icon, p)
  }

  /** One room's search so far: the pixels `vis0` visited before the room
      stay visited, none of them gets a distance in this room, and every
      mask neighbour of a pixel `cs` it dequeued is visited. */
  ghost predicate Swept(vis0: set<Pos>, mask: set<Pos>, cs: seq<Pos>, vis: set<Pos>, D: map<Pos, int>)
  {
    && vis0 <= vis
    && D.Keys !! vis0
    && (forall c :: c in cs ==> Ringed(c, mask, vis))
  }

  /** Every mask pixel among the four neighbours of `c` is in `vis`. */
  ghost predicate Ringed(c: Pos, mask: set<Pos>, vis: set<Pos>)
  {
    forall dir: Dir :: Step(c, dir) in mask ==> Step(c, dir) in vis
  }

  /** Dequeueing `c` and visiting its mask neighbours, while new distances go
      only to pixels not visited before, keeps `Swept`. */
  lemma SweptStep(vis0: set<Pos>, mask: set<Pos>, cs: seq<Pos>, vis: set<Pos>, D: map<Pos, int>,
                  c: Pos, vis': set<Pos>, D': map<Pos, int>)
    requires Swept(vis0, mask, cs, vis, D)
    requires vis <= vis' && forall p :: p in D' ==> p in D || p !in vis
    requires Ringed(c, mask, vis')
    ensures Swept(vis0, mask, cs + [c], vis', D')
  {
  }

  /** `q` is in the 4-dilation of room `rid`: in the room or next to one of its pixels. */
  predicate NearRoom(region: array2<int>, rid: int, q: Pos)
    reads region
  {
    Inside(region, q) && (Get(region, q) == rid || NextTo(region, q, rid))
  }

  /** A start of room `rid` (lines 104-106): an unvisited mask pixel of the room's dilation. */
  predicate IsStart(region: array2<int>, wall: array2<int>, icon: array2<int>, visited: array2<bool>, rid: int, q: Pos)
    reads region, wall, icon, visited
  {
    InMask(wall, icon, q) && Inside(visited, q) && !Get(visited, q) && NearRoom(region, rid, q)
  }

  /** A list in strict row-major order holds no position twice. */
  lemma OrderedDistinct(s: seq<Pos>)
    requires forall i, j :: 0 <= i < j < |s| ==> Before(s[i], s[j])
    ensures NoDuplicates(s)
  {
  }

  lemma NoDuplicatesSnoc(s: seq<Pos>, x: Pos)
    requires NoDuplicates(s) && x !in s
    ensures NoDuplicates(s + [x])
  {
    NoDuplicatesConcat(s, [x]);
  }

  /** `start_positions` (lines 104-106): every start of room `rid`, in row-major order. */
  method Starts(region: array2<int>, wall: array2<int>, icon: array2<int>, visited: array2<bool>, rid: int)
    returns (starts: seq<Pos>)
    requires SameShape(region, wall) && SameShape(wall, icon) && SameShape(visited, wall)
    ensures forall q :: q in starts <==> IsStart(region, wall, icon, visited, rid, q)
    ensures forall i, j :: 0 <= i < j < |starts| ==> Before(starts[i], starts[j])
  {
    starts := [];
    for x := 0 to region.Length0
      invariant forall q :: q in starts <==> IsStart(region, wall, icon, visited, rid, q) && q.0 < x
      invariant forall i, j :: 0 <= i < j < |starts| ==> Before(starts[i], starts[j])
      invariant forall i :: 0 <= i < |starts| ==> starts[i].0 < x
    {
      for y := 0 to region.Length1
        invariant forall q :: q in starts <==> IsStart(region, wall, icon, visited, rid, q) && Before(q, (x, y))
        invariant forall i, j :: 0 <= i < j < |starts| ==> Before(starts[i], starts[j])
        invariant forall i :: 0 <= i < |starts| ==> Before(starts[i], (x, y))
      {
        if IsStart(region, wall, icon, visited, rid, (x, y)) {
          starts := starts + [(x, y)];
        }
      }
    }
  }

  /** `vis` is the set of visited pixels, all in the wall mask `mask`, and
      `pushed` lists each of them exactly once, in the order they were enqueued. */
  ghost predicate Marked(visited: array2<bool>, mask: set<Pos>, vis: set<Pos>, pushed: seq<Pos>)
    reads visited
  {
    && (forall p :: Inside(visited, p) ==> (Get(visited, p) <==> p in vis))
    && vis <= mask
    && (forall p :: p in vis <==> p in pushed)
    && NoDuplicates(pushed)
  }

  /** The distance grid holds `D` at the pixels reached in this room's search and -1 elsewhere. */
  ghost predicate DistMatch(dist: array2<int>, D: map<Pos, int>)
    reads dist
  {
    (forall p :: Inside(dist, p) ==> Get(dist, p) == (if p in D then D[p] else -1)) &&
    (forall p :: p in D ==> Inside(dist, p))
  }

  /** The distances: 1 at the starts, and every other reached pixel one more
      than the 4-neighbour it was reached from. */
  ghost predicate Layered(D: map<Pos, int>, parent: map<Pos, Pos>, starts: set<Pos>)
  {
    && starts <= D.Keys
    && (forall p :: p in D ==> D[p] >= 1 && (p in starts ==> D[p] == 1) && (p !in starts ==> p in parent))
    && (forall p {:trigger parent[p]} :: p in D && p !in starts ==>
          parent[p] in D && Adjacent(p, parent[p]) && D[p] == D[parent[p]] + 1)
  }

  /** The pass state between rooms: the visited pixels, and the replayed log
      of valid wall connections, at most four for each pixel enqueued so far. */
  ghost predicate PassInv(visited: array2<bool>, mask: set<Pos>, positive: bool, vis: set<Pos>, pushed: seq<Pos>,
                          edges0: EdgeMap, edges: EdgeMap, log: seq<Conn>)
    reads visited
  {
    && Marked(visited, mask, vis, pushed)
    && edges == Replay(edges0, log)
    && WallConns(log, positive)
    && |log| <= 4 * |pushed|
  }

  /** The ghost part of one room's search: the distances are layered, every
      reached pixel is visited, every queued pixel reached, and what was
      enqueued is what was dequeued followed by the queue. */
  ghost predicate Tree(starts: set<Pos>, vis: set<Pos>, pushed: seq<Pos>, done: seq<Pos>, queue: seq<Pos>,
                       D: map<Pos, int>, parent: map<Pos, Pos>)
  {
    && Layered(D, parent, starts)
    && D.Keys <= vis
    && (forall i :: 0 <= i < |queue| ==> queue[i] in D)
    && pushed == done + queue
  }

  /** The state of one room's search; `done` are the pixels dequeued so far
      over the whole pass, and the log holds at most four connections for each. */
  ghost predicate SearchInv(visited: array2<bool>, dist: array2<int>, mask: set<Pos>, positive: bool,
                            starts: set<Pos>, vis: set<Pos>, pushed: seq<Pos>, done: seq<Pos>, queue: seq<Pos>,
                            D: map<Pos, int>, parent: map<Pos, Pos>, edges0: EdgeMap, edges: EdgeMap, log: seq<Conn>)
    reads visited, dist
  {
    && Marked(visited, mask, vis, pushed)
    && DistMatch(dist, D)
    && SearchRest(positive, starts, vis, pushed, done, queue, D, parent, edges0, edges, log)
  }

  /** The part of the search state that does not read the grids. */
  ghost predicate SearchRest(positive: bool, starts: set<Pos>, vis: set<Pos>, pushed: seq<Pos>, done: seq<Pos>,
                             queue: seq<Pos>, D: map<Pos, int>, parent: map<Pos, Pos>,
                             edges0: EdgeMap, edges: EdgeMap, log: seq<Conn>)
  {
    && Tree(starts, vis, pushed, done, queue, D, parent)
    && edges == Replay(edges0, log)
    && WallConns(log, positive)
    && |log| <= 4 * |done|
  }

  /** A fresh distance grid of -1 (line 108), and the starts enqueued at
      distance 1 (lines 111-117). */
  method Seed(visited: array2<bool>, starts: seq<Pos>, ghost mask: set<Pos>,
              ghost vis: set<Pos>, ghost pushed: seq<Pos>)
    returns (dist: array2<int>, queue: seq<Pos>, ghost vis': set<Pos>, ghost pushed': seq<Pos>, ghost D: map<Pos, int>)
    modifies visited
    requires Marked(visited, mask, vis, pushed)
    requires NoDuplicates(starts)
    requires forall q :: q in starts ==> q in mask && Inside(visited, q) && !Get(visited, q)
    ensures fresh(dist) && SameShape(visited, dist)
    ensures Marked(visited, mask, vis', pushed') && DistMatch(dist, D)
    ensures queue == starts && pushed' == pushed + starts && vis' == vis + Elems(starts)
    ensures D.Keys == Elems(starts) && forall p :: p in D ==> D[p] == 1
  {
    dist := new int[visited.Length0, visited.Length1]((x, y) => -1);
    queue, vis', pushed', D := [], vis, pushed, map[];
    for i := 0 to |starts|
      modifies visited, dist
      invariant Marked(visited, mask, vis', pushed') && DistMatch(dist, D)
      invariant queue == starts[..i] && pushed' == pushed + starts[..i] && vis' == vis + Elems(starts[..i])
      invariant D.Keys == Elems(starts[..i]) && forall p :: p in D ==> D[p] == 1
    {
      var s := starts[i];
      assert s !in starts[..i];
      assert s !in pushed';
      NoDuplicatesSnoc(pushed', s);
      visited[s.0, s.1] := true;
      dist[s.0, s.1] := 1;
      assert starts[..i + 1] == starts[..i] + [s];
      queue, vis', pushed', D := queue + [s], vis' + {s}, pushed' + [s], D[s := 1];
    }
    assert starts[..|starts|] == starts;
  }

  /** The 4-neighbour of `c` in direction `dir` is in the grid and in a room other than `rid`. */
  predicate Foreign(region: array2<int>, c: Pos, dir: Dir, rid: int)
    reads region
  {
    Inside(region, Step(c, dir)) && Get(region, Step(c, dir)) > 0 && Get(region, Step(c, dir)) != rid
  }

  /** The contact check in direction `dir` of a dequeued pixel `c` at
      distance `d` (lines 125-185): a 4-neighbour in the grid with a positive
      id other than `rid` gives a wall connection between the two, of extent `d`. */
  function Contact(region: array2<int>, c: Pos, dir: Dir, rid: int, d: int): Option<Conn>
    reads region
  {
    var q := Step(c, dir);
    if Inside(region, q) && region[q.0, q.1] > 0 && region[q.0, q.1] != rid then Some(Conn(Wall, rid, region[q.0, q.1], d))
    else None
  }

  function OptSeq(o: Option<Conn>): seq<Conn>
  {
    if o.Some? then [o.value] else []
  }

  function ContactPair(region: array2<int>, c: Pos, dir1: Dir, dir2: Dir, rid: int, d: int): seq<Conn>
    reads region
  {
    OptSeq(Contact(region, c, dir1, rid, d)) + OptSeq(Contact(region, c, dir2, rid, d))
  }

  /** The connections one dequeued pixel records, north, south, west and east in that order. */
  function Contacts(region: array2<int>, c: Pos, rid: int, d: int): seq<Conn>
    reads region
  {
    ContactPair(region, c, North, South, rid, d) + ContactPair(region, c, West, East, rid, d)
  }

  /** A valid wall connection from `rid` of extent `d` to a positive id. */
  predicate WallFrom(x: Conn, rid: int, d: int)
  {
    x.kind == Wall && x.a == rid && x.area == d && ValidConn(x) && x.b > 0
  }

  /** The valid wall connection from `rid` of extent `d` at each neighbour, in directions `dir1` and `dir2`, with a positive id other than `rid`. */
  lemma ContactPairFacts(region: array2<int>, c: Pos, dir1: Dir, dir2: Dir, rid: int, d: int)
    requires rid != 0 && d >= 1
    ensures |ContactPair(region, c, dir1, dir2, rid, d)| <= 2
    ensures forall i :: 0 <= i < |ContactPair(region, c, dir1, dir2, rid, d)| ==>
      WallFrom(ContactPair(region, c, dir1, dir2, rid, d)[i], rid, d)
    ensures forall dir :: (dir == dir1 || dir == dir2) && Foreign(region, c, dir, rid) ==>
      Conn(Wall, rid, Get(region, Step(c, dir)), d) in ContactPair(region, c, dir1, dir2, rid, d)
  {
  }

  /** One dequeued pixel records at most four connections, each a valid wall
      connection from `rid` of extent `d`, and one for every 4-neighbour with
      a positive id other than `rid`. */
  lemma ContactsFacts(region: array2<int>, c: Pos, rid: int, d: int)
    requires rid != 0 && d >= 1
    ensures |Contacts(region, c, rid, d)| <= 4
    ensures forall i :: 0 <= i < |Contacts(region, c, rid, d)| ==> WallFrom(Contacts(region, c, rid, d)[i], rid, d)
    ensures forall dir :: Foreign(region, c, dir, rid) ==>
      Conn(Wall, rid, Get(region, Step(c, dir)), d) in Contacts(region, c, rid, d)
  {
    var p1, p2 := ContactPair(region, c, North, South, rid, d), ContactPair(region, c, West, East, rid, d);
    ContactPairFacts(region, c, North, South, rid, d);
    ContactPairFacts(region, c, West, East, rid, d);
    var cs := Contacts(region, c, rid, d);
    assert cs == p1 + p2;
    forall i | 0 <= i < |cs|
      ensures WallFrom(cs[i], rid, d)
    {
      if i < |p1| {
        assert cs[i] == p1[i];
      } else {
        assert cs[i] == p2[i - |p1|];
      }
    }
  }

  /** The room ids of the region as a value, row by row. */
  ghost function IdGrid(region: array2<int>): seq<seq<int>>
    reads region
  {
    seq(region.Length0, i requires 0 <= i < region.Length0 reads region =>
      seq(region.Length1, j requires 0 <= j < region.Length1 reads region => region[i, j]))
  }

  /** The id at `q` of an id grid, 0 outside it. */
  ghost function IdAt(g: seq<seq<int>>, q: Pos): int
  {
    if 0 <= q.0 < |g| && 0 <= q.1 < |g[q.0]| then g[q.0][q.1] else 0
  }

  /** The contact in direction `dir` of pixel `c`, read from an id grid. */
  ghost function GridContact(g: seq<seq<int>>, c: Pos, dir: Dir, rid: int, d: int): Option<Conn>
  {
    var v := IdAt(g, Step(c, dir));
    if v > 0 && v != rid then Some(Conn(Wall, rid, v, d)) else None
  }

  /** The contacts of pixel `c`, north, south, west and east, read from an id grid. */
  ghost function GridContacts(g: seq<seq<int>>, c: Pos, rid: int, d: int): seq<Conn>
  {
    (OptSeq(GridContact(g, c, North, rid, d)) + OptSeq(GridContact(g, c, South, rid, d)))
    + (OptSeq(GridContact(g, c, West, rid, d)) + OptSeq(GridContact(g, c, East, rid, d)))
  }

  /** Reading the contacts from the region and from its id grid agree. */
  lemma ContactsGrid(region: array2<int>, c: Pos, rid: int, d: int)
    ensures Contacts(region, c, rid, d) == GridContacts(IdGrid(region), c, rid, d)
  {
    var g := IdGrid(region);
    assert |g| == region.Length0 && forall i :: 0 <= i < |g| ==> |g[i]| == region.Length1;
    forall dir: Dir
      ensures Contact(region, c, dir, rid, d) == GridContact(g, c, dir, rid, d)
    {
      var q := Step(c, dir);
      if Inside(region, q) {
        assert IdAt(g, q) == region[q.0, q.1];
      } else {
        assert IdAt(g, q) == 0;
      }
    }
  }

  /** Recording an optional connection. */
  method Record(edges0: EdgeMap, edges: EdgeMap, ghost log: seq<Conn>, o: Option<Conn>, ghost positive: bool)
    returns (edges': EdgeMap, ghost log': seq<Conn>)
    requires edges == Replay(edges0, log) && WallConns(log, positive)
    requires o.Some? ==> o.value.kind == Wall && ValidConn(o.value) && (positive ==> 0 < o.value.a && 0 < o.value.b)
    ensures log' == log + OptSeq(o)
    ensures edges' == Replay(edges0, log') && WallConns(log', positive)
  {
    edges', log' := edges, log;
    if o.Some? {
      ReplayAppend(edges0, log, o.value);
      WallConnsSnoc(log, o.value, positive);
      edges' := Add(edges, o.value);
      log' := log + [o.value];
    }
  }

  /** A contact is a valid wall connection, between positive ids on a map without negative ids. */
  lemma ContactValid(region: array2<int>, c: Pos, dir: Dir, rid: int, d: int)
    requires rid != 0 && (NonNegative(region) ==> rid > 0) && d >= 1
    ensures Contact(region, c, dir, rid, d).Some? ==>
      && Contact(region, c, dir, rid, d).value.kind == Wall
      && ValidConn(Contact(region, c, dir, rid, d).value)
      && (NonNegative(region) ==> 0 < Contact(region, c, dir, rid, d).value.a && 0 < Contact(region, c, dir, rid, d).value.b)
  {
  }

  lemma Assoc<T>(a: seq<T>, b: seq<T>, c: seq<T>)
    ensures a + b + c == a + (b + c)
  {
  }

  /** The contact checks in directions `dir1` then `dir2`. */
  method TouchPair(region: array2<int>, c: Pos, dir1: Dir, dir2: Dir, rid: int, d: int,
                   edges0: EdgeMap, edges: EdgeMap, ghost log: seq<Conn>, ghost positive: bool)
    returns (edges': EdgeMap, ghost log': seq<Conn>)
    requires positive == NonNegative(region) && rid != 0 && (positive ==> rid > 0) && d >= 1
    requires edges == Replay(edges0, log) && WallConns(log, positive)
    ensures log' == log + ContactPair(region, c, dir1, dir2, rid, d)
    ensures edges' == Replay(edges0, log') && WallConns(log', positive)
  {
    var o1, o2 := Contact(region, c, dir1, rid, d), Contact(region, c, dir2, rid, d);
    ContactValid(region, c, dir1, rid, d);
    ContactValid(region, c, dir2, rid, d);
    edges', log' := Record(edges0, edges, log, o1, positive);
    edges', log' := Record(edges0, edges', log', o2, positive);
    Assoc(log, OptSeq(o1), OptSeq(o2));
  }

  /** The four contact checks of a dequeued pixel (lines 123-185). */
  method Touch(region: array2<int>, c: Pos, rid: int, d: int, edges0: EdgeMap, edges: EdgeMap, ghost log: seq<Conn>)
    returns (edges': EdgeMap, ghost log': seq<Conn>)
    requires rid != 0 && (NonNegative(region) ==> rid > 0) && d >= 1
    requires edges == Replay(edges0, log) && WallConns(log, NonNegative(region))
    ensures log' == log + Contacts(region, c, rid, d) && |log'| <= |log| + 4
    ensures edges' == Replay(edges0, log') && WallConns(log', NonNegative(region))
  {
    ContactsFacts(region, c, rid, d);
    ghost var pos := NonNegative(region);
    edges', log' := TouchPair(region, c, North, South, rid, d, edges0, edges, log, pos);
    edges', log' := TouchPair(region, c, West, East, rid, d, edges0, edges', log', pos);
    Assoc(log, ContactPair(region, c, North, South, rid, d), ContactPair(region, c, West, East, rid, d));
  }

  /** Admitting mask pixel `n`, unvisited, at distance `v`: it is marked
      visited, listed as enqueued and given its distance. */
  method Admit(visited: array2<bool>, dist: array2<int>, n: Pos, v: int, ghost mask: set<Pos>,
               ghost vis: set<Pos>, ghost pushed: seq<Pos>, ghost D: map<Pos, int>)
    returns (ghost vis': set<Pos>, ghost pushed': seq<Pos>, ghost D': map<Pos, int>)
    modifies visited, dist
    requires Marked(visited, mask, vis, pushed) && DistMatch(dist, D) && D.Keys <= vis
    requires n in mask && Inside(visited, n) && Inside(dist, n) && !Get(visited, n)
    ensures vis' == vis + {n} && pushed' == pushed + [n] && D' == D[n := v]
    ensures Marked(visited, mask, vis', pushed') && DistMatch(dist, D')
  {
    assert n !in pushed && n !in D;
    NoDuplicatesSnoc(pushed, n);
    visited[n.0, n.1] := true;
    dist[n.0, n.1] := v;
    vis', pushed', D' := vis + {n}, pushed + [n], D[n := v];
  }

  /** What enqueueing `n` from `c` does to the ghost part of the search state. */
  lemma SpreadFacts(positive: bool, starts: set<Pos>, vis: set<Pos>, pushed: seq<Pos>, done: seq<Pos>, queue: seq<Pos>,
                    D: map<Pos, int>, parent: map<Pos, Pos>, edges0: EdgeMap, edges: EdgeMap, log: seq<Conn>,
                    c: Pos, n: Pos, d: int, mask: set<Pos>)
    requires SearchRest(positive, starts, vis, pushed, done, queue, D, parent, edges0, edges, log)
    requires vis <= mask && c in D && D[c] == d && Adjacent(n, c)
    requires n !in vis && n in mask
    ensures SearchRest(positive, starts, vis + {n}, pushed + [n], done, queue + [n], D[n := d + 1], parent[n := c],
                       edges0, edges, log)
    ensures n !in D
    ensures 2 * |mask - (vis + {n})| + |queue + [n]| <= 2 * |mask - vis| + |queue|
  {
    assert mask - (vis + {n}) == (mask - vis) - {n};
    LayeredExtend(D, parent, starts, c, n, d);
    assert forall i :: 0 <= i < |queue + [n]| ==> (queue + [n])[i] in D[n := d + 1];
    assert pushed + [n] == done + (queue + [n]);
  }

  /** Reaching `n` from `c` at one more than the distance of `c` keeps the distances layered. */
  lemma LayeredExtend(D: map<Pos, int>, parent: map<Pos, Pos>, starts: set<Pos>, c: Pos, n: Pos, d: int)
    requires Layered(D, parent, starts) && c in D && D[c] == d && n !in D && Adjacent(n, c)
    ensures Layered(D[n := d + 1], parent[n := c], starts)
  {
    var D', parent' := D[n := d + 1], parent[n := c];
    assert n !in starts;
    forall p | p in D' && p !in starts
      ensures parent'[p] in D' && Adjacent(p, parent'[p]) && D'[p] == D'[parent'[p]] + 1
    {
      if p != n {
        assert p in D && parent'[p] == parent[p];
      }
    }
  }

  /** Enqueueing mask pixel `n`, unvisited, from dequeued pixel `c` (lines 189-191 and their like). */
  method Push(visited: array2<bool>, dist: array2<int>, c: Pos, dir: Dir, d: int, queue: seq<Pos>,
              ghost mask: set<Pos>, ghost positive: bool,
              ghost starts: set<Pos>, ghost vis: set<Pos>, ghost pushed: seq<Pos>, ghost done: seq<Pos>,
              ghost D: map<Pos, int>, ghost parent: map<Pos, Pos>,
              ghost edges0: EdgeMap, ghost edges: EdgeMap, ghost log: seq<Conn>)
    returns (queue': seq<Pos>, ghost vis': set<Pos>, ghost pushed': seq<Pos>, ghost D': map<Pos, int>,
             ghost parent': map<Pos, Pos>)
    modifies visited, dist
    requires SameShape(visited, dist)
    requires Marked(visited, mask, vis, pushed) && DistMatch(dist, D)
    requires SearchRest(positive, starts, vis, pushed, done, queue, D, parent, edges0, edges, log)
    requires c in D && D[c] == d
    requires var n := Step(c, dir); n in mask && Inside(visited, n) && !Get(visited, n)
    ensures Marked(visited, mask, vis', pushed') && DistMatch(dist, D')
    ensures SearchRest(positive, starts, vis', pushed', done, queue', D', parent', edges0, edges, log)
    ensures 2 * |mask - vis'| + |queue'| <= 2 * |mask - vis| + |queue|
    ensures forall p :: p in D ==> p in D' && D'[p] == D[p]
    ensures vis' == vis + {Step(c, dir)} && D'.Keys == D.Keys + {Step(c, dir)}
  {
    var n := Step(c, dir);
    assert n !in vis;
    vis', pushed', D' := Admit(visited, dist, n, d + 1, mask, vis, pushed, D);
    queue', parent' := queue + [n], parent[n := c];
    StepIsAdjacent(c, dir);
    SpreadFacts(positive, starts, vis, pushed, done, queue, D, parent, edges0, edges, log, c, n, d, mask);
  }

  /** The expansion step in direction `dir` from dequeued pixel `c` at
      distance `d` (lines 187-203): an unvisited mask pixel is marked
      visited, given distance `d + 1` and enqueued. */
  method Spread(wall: array2<int>, icon: array2<int>, visited: array2<bool>, dist: array2<int>,
                c: Pos, dir: Dir, d: int, queue: seq<Pos>, ghost mask: set<Pos>, ghost positive: bool,
                ghost starts: set<Pos>, ghost vis: set<Pos>, ghost pushed: seq<Pos>, ghost done: seq<Pos>,
                ghost D: map<Pos, int>, ghost parent: map<Pos, Pos>,
                ghost edges0: EdgeMap, ghost edges: EdgeMap, ghost log: seq<Conn>)
    returns (queue': seq<Pos>, ghost vis': set<Pos>, ghost pushed': seq<Pos>, ghost D': map<Pos, int>,
             ghost parent': map<Pos, Pos>)
    modifies visited, dist
    requires SameShape(visited, dist) && SameShape(visited, wall) && SameShape(wall, icon)
    requires dist != wall && dist != icon && Covers(wall, icon, mask) && Within(wall, icon, mask)
    requires SearchInv(visited, dist, mask, positive, starts, vis, pushed, done, queue, D, parent, edges0, edges, log)
    requires c in D && D[c] == d
    ensures SearchInv(visited, dist, mask, positive, starts, vis', pushed', done, queue', D', parent', edges0, edges, log)
    ensures 2 * |mask - vis'| + |queue'| <= 2 * |mask - vis| + |queue|
    ensures forall p :: p in D ==> p in D' && D'[p] == D[p]
    ensures vis <= vis' && forall p :: p in D' ==> p in D || p !in vis
    ensures Step(c, dir) in mask ==> Step(c, dir) in vis'
  {
    var n := Step(c, dir);
    queue', vis', pushed', D', parent' := queue, vis, pushed, D, parent;
    assert n in mask ==> InMask(wall, icon, n);
    if Inside(wall, n) && wall[n.0, n.1] != 0 && icon[n.0, n.1] == 0 && !visited[n.0, n.1] {
      assert InMask(wall, icon, n);
      queue', vis', pushed', D', parent' := Push(visited, dist, c, dir, d, queue, mask, positive, starts, vis, pushed, done,
                                                 D, parent, edges0, edges, log);
    }
  }

  /** Dequeueing the head of the queue keeps the ghost state, with the head now dequeued. */
  lemma PopFacts(starts: set<Pos>, vis: set<Pos>, pushed: seq<Pos>, done: seq<Pos>, queue: seq<Pos>,
                 D: map<Pos, int>, parent: map<Pos, Pos>)
    requires Tree(starts, vis, pushed, done, queue, D, parent) && queue != []
    ensures Tree(starts, vis, pushed, done + [queue[0]], queue[1..], D, parent)
    ensures queue[0] in D && D[queue[0]] >= 1
  {
    assert queue[0] in D;
    assert done + queue == (done + [queue[0]]) + queue[1..];
  }

  /** Dequeueing pixel `c` and recording its contacts (lines 120-185). */
  method Dequeue(region: array2<int>, dist: array2<int>, visited: array2<bool>, rid: int, queue: seq<Pos>,
                 ghost mask: set<Pos>, ghost positive: bool,
                 ghost starts: set<Pos>, ghost vis: set<Pos>, ghost pushed: seq<Pos>, ghost done: seq<Pos>,
                 ghost D: map<Pos, int>, ghost parent: map<Pos, Pos>,
                 edges0: EdgeMap, edges: EdgeMap, ghost log: seq<Conn>)
    returns (c: Pos, d: int, queue': seq<Pos>, edges': EdgeMap, ghost log': seq<Conn>, ghost done': seq<Pos>)
    requires positive == NonNegative(region) && rid != 0 && (positive ==> rid > 0)
    requires SearchInv(visited, dist, mask, positive, starts, vis, pushed, done, queue, D, parent, edges0, edges, log)
    requires queue != []
    ensures SearchInv(visited, dist, mask, positive, starts, vis, pushed, done', queue', D, parent, edges0, edges', log')
    ensures c in D && D[c] == d && |queue'| == |queue| - 1
    ensures c == queue[0] && done' == done + [c] && log' == log + Contacts(region, c, rid, d)
  {
    c := queue[0];
    PopFacts(starts, vis, pushed, done, queue, D, parent);
    d := dist[c.0, c.1];
    assert d == D[c];
    edges', log' := Touch(region, c, rid, d, edges0, edges, log);
    queue', done' := queue[1..], done + [c];
  }

  /** One dequeued pixel (lines 120-203): its contacts are recorded, then
      its unvisited mask neighbours enqueued, north, south, west and east. */
  method Visit(region: array2<int>, wall: array2<int>, icon: array2<int>, visited: array2<bool>, dist: array2<int>,
               rid: int, queue: seq<Pos>, ghost mask: set<Pos>, ghost positive: bool,
               ghost starts: set<Pos>, ghost vis: set<Pos>, ghost pushed: seq<Pos>, ghost done: seq<Pos>,
               ghost D: map<Pos, int>, ghost parent: map<Pos, Pos>,
               edges0: EdgeMap, edges: EdgeMap, ghost log: seq<Conn>,
               ghost g: seq<seq<int>>, ghost done0: seq<Pos>, ghost log0: seq<Conn>, ghost cs: seq<Pos>,
               ghost vis0: set<Pos>)
    returns (queue': seq<Pos>, edges': EdgeMap, ghost log': seq<Conn>, ghost vis': set<Pos>, ghost pushed': seq<Pos>,
             ghost done': seq<Pos>, ghost D': map<Pos, int>, ghost parent': map<Pos, Pos>, ghost cs': seq<Pos>)
    modifies visited, dist
    requires SameShape(visited, dist) && SameShape(visited, wall) && SameShape(wall, icon)
    requires dist != region && dist != wall && dist != icon && Frozen(region, wall, icon, mask, positive, g) && rid != 0 && (positive ==> rid > 0)
    requires SearchInv(visited, dist, mask, positive, starts, vis, pushed, done, queue, D, parent, edges0, edges, log)
    requires Logged(g, rid, done0, log0, cs, done, D, log) && Swept(vis0, mask, cs, vis, D)
    requires queue != []
    ensures SearchInv(visited, dist, mask, positive, starts, vis', pushed', done', queue', D', parent', edges0, edges', log')
    ensures 2 * |mask - vis'| + |queue'| < 2 * |mask - vis| + |queue|
    ensures cs' == cs + [queue[0]]
    ensures Logged(g, rid, done0, log0, cs', done', D', log') && Swept(vis0, mask, cs', vis', D')
  {
    var c, d;
    c, d, queue', edges', log', done' := Dequeue(region, dist, visited, rid, queue, mask, positive, starts, vis, pushed, done,
                                               D, parent, edges0, edges, log);
    ContactsGrid(region, c, rid, d);
    queue', vis', pushed', D', parent' := Fan(wall, icon, visited, dist, c, d, queue', mask, positive,
                                              starts, vis, pushed, done', D, parent, edges0, edges', log');
    LoggedStep(g, rid, done0, log0, cs, done, D, log, c, D', log');
    SweptStep(vis0, mask, cs, vis, D, c, vis', D');
    cs' := cs + [c];
  }

  /** The four expansion steps from dequeued pixel `c`, north, south, west and east. */
  method Fan(wall: array2<int>, icon: array2<int>, visited: array2<bool>, dist: array2<int>,
             c: Pos, d: int, queue: seq<Pos>, ghost mask: set<Pos>, ghost positive: bool,
             ghost starts: set<Pos>, ghost vis: set<Pos>, ghost pushed: seq<Pos>, ghost done: seq<Pos>,
             ghost D: map<Pos, int>, ghost parent: map<Pos, Pos>,
             ghost edges0: EdgeMap, ghost edges: EdgeMap, ghost log: seq<Conn>)
    returns (queue': seq<Pos>, ghost vis': set<Pos>, ghost pushed': seq<Pos>, ghost D': map<Pos, int>,
             ghost parent': map<Pos, Pos>)
    modifies visited, dist
    requires SameShape(visited, dist) && SameShape(visited, wall) && SameShape(wall, icon)
    requires dist != wall && dist != icon && Covers(wall, icon, mask) && Within(wall, icon, mask)
    requires SearchInv(visited, dist, mask, positive, starts, vis, pushed, done, queue, D, parent, edges0, edges, log)
    requires c in D && D[c] == d
    ensures SearchInv(visited, dist, mask, positive, starts, vis', pushed', done, queue', D', parent', edges0, edges, log)
    ensures 2 * |mask - vis'| + |queue'| <= 2 * |mask - vis| + |queue|
    ensures forall p :: p in D ==> p in D' && D'[p] == D[p]
    ensures vis <= vis' && forall p :: p in D' ==> p in D || p !in vis
    ensures Ringed(c, mask, vis')
  {
    queue', vis', pushed', D', parent' := SpreadPair(wall, icon, visited, dist, c, North, South, d, queue, mask, positive,
                                                     starts, vis, pushed, done, D, parent, edges0, edges, log);
    queue', vis', pushed', D', parent' := SpreadPair(wall, icon, visited, dist, c, West, East, d, queue', mask, positive,
                                                     starts, vis', pushed', done, D', parent', edges0, edges, log);
    Around(c, mask, vis');
  }

  /** What holds of the four neighbours of `c` holds of each. */
  lemma Around(c: Pos, mask: set<Pos>, vis: set<Pos>)
    requires Step(c, North) in mask ==> Step(c, North) in vis
    requires Step(c, South) in mask ==> Step(c, South) in vis
    requires Step(c, West) in mask ==> Step(c, West) in vis
    requires Step(c, East) in mask ==> Step(c, East) in vis
    ensures Ringed(c, mask, vis)
  {
    forall dir: Dir
      ensures Step(c, dir) in mask ==> Step(c, dir) in vis
    {
      match dir
      case North =>
      case South =>
      case West =>
      case East =>
    }
  }

  /** Two expansion steps from dequeued pixel `c`, in directions `dir1` then `dir2`. */
  method SpreadPair(wall: array2<int>, icon: array2<int>, visited: array2<bool>, dist: array2<int>,
                    c: Pos, dir1: Dir, dir2: Dir, d: int, queue: seq<Pos>, ghost mask: set<Pos>, ghost positive: bool,
                    ghost starts: set<Pos>, ghost vis: set<Pos>, ghost pushed: seq<Pos>, ghost done: seq<Pos>,
                    ghost D: map<Pos, int>, ghost parent: map<Pos, Pos>,
                    ghost edges0: EdgeMap, ghost edges: EdgeMap, ghost log: seq<Conn>)
    returns (queue': seq<Pos>, ghost vis': set<Pos>, ghost pushed': seq<Pos>, ghost D': map<Pos, int>,
             ghost parent': map<Pos, Pos>)
    modifies visited, dist
    requires SameShape(visited, dist) && SameShape(visited, wall) && SameShape(wall, icon)
    requires dist != wall && dist != icon && Covers(wall, icon, mask) && Within(wall, icon, mask)
    requires SearchInv(visited, dist, mask, positive, starts, vis, pushed, done, queue, D, parent, edges0, edges, log)
    requires c in D && D[c] == d
    ensures SearchInv(visited, dist, mask, positive, starts, vis', pushed', done, queue', D', parent', edges0, edges, log)
    ensures 2 * |mask - vis'| + |queue'| <= 2 * |mask - vis| + |queue|
    ensures forall p :: p in D ==> p in D' && D'[p] == D[p]
    ensures vis <= vis' && forall p :: p in D' ==> p in D || p !in vis
    ensures Step(c, dir1) in mask ==> Step(c, dir1) in vis'
    ensures Step(c, dir2) in mask ==> Step(c, dir2) in vis'
  {
    queue', vis', pushed', D', parent' := Spread(wall, icon, visited, dist, c, dir1, d, queue, mask, positive, starts,
                                                 vis, pushed, done, D, parent, edges0, edges, log);
    queue', vis', pushed', D', parent' := Spread(wall, icon, visited, dist, c, dir2, d, queue', mask, positive, starts,
                                                 vis', pushed', done, D', parent', edges0, edges, log);
  }

  /** What the search reads of the grids, as values: a set holding the wall
      mask, whether the map has no negative ids, and its id grid. */
  ghost predicate Frozen(region: array2<int>, wall: array2<int>, icon: array2<int>,
                         mask: set<Pos>, positive: bool, g: seq<seq<int>>)
    reads region, wall, icon
  {
    Covers(wall, icon, mask) && Within(wall, icon, mask) && positive == NonNegative(region) && g == IdGrid(region)
  }

  /** The search of one room (lines 120-203), run until the queue is empty,
      when everything enqueued has been dequeued: one call per dequeued
      pixel, whose contacts are appended to the log at its distance. */
  method Search(region: array2<int>, wall: array2<int>, icon: array2<int>, visited: array2<bool>, dist: array2<int>,
                rid: int, queue: seq<Pos>, ghost mask: set<Pos>, ghost positive: bool,
                ghost starts: set<Pos>, ghost vis: set<Pos>, ghost pushed: seq<Pos>, ghost done: seq<Pos>,
                ghost D: map<Pos, int>, ghost parent: map<Pos, Pos>,
                edges0: EdgeMap, edges: EdgeMap, ghost log: seq<Conn>,
                ghost g: seq<seq<int>>, ghost done0: seq<Pos>, ghost log0: seq<Conn>, ghost cs: seq<Pos>,
                ghost vis0: set<Pos>)
    returns (edges': EdgeMap, ghost log': seq<Conn>, ghost vis': set<Pos>, ghost pushed': seq<Pos>,
             ghost done': seq<Pos>, ghost D': map<Pos, int>, ghost parent': map<Pos, Pos>, ghost cs': seq<Pos>)
    modifies visited, dist
    requires SameShape(visited, dist) && SameShape(visited, wall) && SameShape(wall, icon)
    requires dist != region && dist != wall && dist != icon && Frozen(region, wall, icon, mask, positive, g) && rid != 0 && (positive ==> rid > 0)
    requires SearchInv(visited, dist, mask, positive, starts, vis, pushed, done, queue, D, parent, edges0, edges, log)
    requires Logged(g, rid, done0, log0, cs, done, D, log) && Swept(vis0, mask, cs, vis, D)
    ensures SearchInv(visited, dist, mask, positive, starts, vis', pushed', done', [], D', parent', edges0, edges', log')
    ensures Logged(g, rid, done0, log0, cs', done', D', log') && Swept(vis0, mask, cs', vis', D')
    decreases 2 * |mask - vis| + |queue|
  {
    if queue == [] {
      edges', log', vis', pushed', done', D', parent', cs' := edges, log, vis, pushed, done, D, parent, cs;
    } else {
      var q, e1;
      ghost var l1, v1, p1, dn1, D1, pa1, cs1;
      q, e1, l1, v1, p1, dn1, D1, pa1, cs1 := Visit(region, wall, icon, visited, dist, rid, queue, mask,
                                                   positive, starts, vis, pushed, done, D, parent,
                                                   edges0, edges, log, g, done0, log0, cs, vis0);
      edges', log', vis', pushed', done', D', parent', cs' := Search(region, wall, icon, visited, dist, rid, q, mask,
                                                                    positive, starts, v1, p1, dn1, D1, pa1,
                                                                    edges0, e1, l1, g, done0, log0, cs1, vis0);
    }
  }

  /** The distance of `c`, 0 where it has none. */
  ghost function DistOf(D: map<Pos, int>, c: Pos): int
  {
    if c in D then D[c] else 0
  }

  /** The log `log0` followed by the connections the pixels `cs`, dequeued
      in that order, record for room `rid`, each at its distance in `D`. */
  ghost function ContactLog(g: seq<seq<int>>, rid: int, log0: seq<Conn>, cs: seq<Pos>, D: map<Pos, int>): seq<Conn>
    decreases |cs|
  {
    if |cs| == 0 then log0
    else ContactLog(g, rid, log0, cs[..|cs| - 1], D) + GridContacts(g, cs[|cs| - 1], rid, DistOf(D, cs[|cs| - 1]))
  }

  /** The list `s0` followed by the pixels `cs`, one at a time. */
  function Then(s0: seq<Pos>, cs: seq<Pos>): (s: seq<Pos>)
    decreases |cs|
  {
    if |cs| == 0 then s0 else Then(s0, cs[..|cs| - 1]) + [cs[|cs| - 1]]
  }

  /** `Then` is concatenation. */
  lemma {:induction false} ThenConcat(s0: seq<Pos>, cs: seq<Pos>)
    ensures Then(s0, cs) == s0 + cs
    decreases |cs|
  {
    if |cs| > 0 {
      ThenConcat(s0, cs[..|cs| - 1]);
      assert s0 + cs == (s0 + cs[..|cs| - 1]) + [cs[|cs| - 1]];
    }
  }

  /** Every pixel of `cs` has a distance in `D`. */
  ghost predicate Reached(cs: seq<Pos>, D: map<Pos, int>)
  {
    Elems(cs) <= D.Keys
  }

  /** The contact log only depends on the distances of the pixels it lists. */
  lemma {:induction false} ContactLogAgree(g: seq<seq<int>>, rid: int, log0: seq<Conn>, cs: seq<Pos>,
                                          D: map<Pos, int>, D': map<Pos, int>)
    requires Reached(cs, D)
    requires forall p :: p in D ==> p in D' && D'[p] == D[p]
    ensures ContactLog(g, rid, log0, cs, D') == ContactLog(g, rid, log0, cs, D)
    decreases |cs|
  {
    if |cs| > 0 {
      var last := cs[|cs| - 1];
      assert last in Elems(cs) && Elems(cs[..|cs| - 1]) <= Elems(cs);
      ContactLogAgree(g, rid, log0, cs[..|cs| - 1], D, D');
    }
  }

  /** Room `rid`'s search dequeued the pixels `cs`, in that order, after
      `done0`, and its log grew from `log0` by their contacts, each at its
      distance. */
  ghost predicate Logged(g: seq<seq<int>>, rid: int, done0: seq<Pos>, log0: seq<Conn>, cs: seq<Pos>,
                         done: seq<Pos>, D: map<Pos, int>, log: seq<Conn>)
  {
    done == Then(done0, cs) && Reached(cs, D) && log == ContactLog(g, rid, log0, cs, D)
  }

  /** Dequeueing `c` and recording its contacts at its distance, while the
      distances grow, keeps the log accounted for. */
  lemma LoggedStep(g: seq<seq<int>>, rid: int, done0: seq<Pos>, log0: seq<Conn>, cs: seq<Pos>, done: seq<Pos>,
                   D: map<Pos, int>, log: seq<Conn>, c: Pos, D': map<Pos, int>, log': seq<Conn>)
    requires Logged(g, rid, done0, log0, cs, done, D, log)
    requires c in D && log' == log + GridContacts(g, c, rid, D[c])
    requires forall p :: p in D ==> p in D' && D'[p] == D[p]
    ensures Logged(g, rid, done0, log0, cs + [c], done + [c], D', log')
  {
    ContactLogAgree(g, rid, log0, cs, D, D');
    ContactLogSnoc(g, rid, log0, done0, cs, c, D');
    assert DistOf(D', c) == D[c];
  }

  /** Dequeueing one more pixel appends it, and its contacts at its distance, to the lists. */
  lemma ContactLogSnoc(g: seq<seq<int>>, rid: int, log0: seq<Conn>, done0: seq<Pos>, cs: seq<Pos>, c: Pos,
                       D: map<Pos, int>)
    ensures ContactLog(g, rid, log0, cs + [c], D)
            == ContactLog(g, rid, log0, cs, D) + GridContacts(g, c, rid, DistOf(D, c))
    ensures Then(done0, cs + [c]) == Then(done0, cs) + [c]
    ensures Reached(cs + [c], D) <==> Reached(cs, D) && c in D
  {
    assert (cs + [c])[..|cs|] == cs;
  }

  /** The search state right after seeding: the starts at distance 1, nothing of this room dequeued yet. */
  lemma SeedFacts(st: seq<Pos>, vis: set<Pos>, pushed: seq<Pos>, D: map<Pos, int>)
    requires D.Keys == Elems(st) && forall p :: p in D ==> D[p] == 1
    ensures Tree(Elems(st), vis + Elems(st), pushed + st, pushed, st, D, map[])
  {
  }

  /** One room (lines 98-203): its starts, and when there are any, the
      flood from them.  Afterwards the reached pixels carry layered
      distances from the starts, which are mask pixels of the room's
      dilation, and the room adds to the log exactly the contacts of the
      pixels it enqueued, in dequeue order, each at its distance. */
  method RoomSearch(region: array2<int>, wall: array2<int>, icon: array2<int>, visited: array2<bool>, rid: int,
                    ghost mask: set<Pos>, ghost positive: bool,
                    edges0: EdgeMap, edges: EdgeMap, ghost log: seq<Conn>, ghost vis: set<Pos>, ghost pushed: seq<Pos>,
                    ghost g: seq<seq<int>>)
    returns (edges': EdgeMap, ghost log': seq<Conn>, ghost vis': set<Pos>, ghost pushed': seq<Pos>,
             ghost starts: set<Pos>, ghost D: map<Pos, int>, ghost parent: map<Pos, Pos>, ghost order: seq<Pos>)
    modifies visited
    requires SameShape(region, wall) && SameShape(visited, wall) && SameShape(wall, icon)
    requires Covers(wall, icon, mask) && Within(wall, icon, mask)
    requires positive == NonNegative(region) && rid != 0 && (positive ==> rid > 0)
    requires PassInv(visited, mask, positive, vis, pushed, edges0, edges, log)
    requires g == IdGrid(region)
    ensures PassInv(visited, mask, positive, vis', pushed', edges0, edges', log')
    ensures D.Keys <= vis'
    ensures RoomDone(g, mask, rid, vis, order, D, parent, starts)
    ensures pushed' == pushed + order
    ensures log' == ContactLog(g, rid, log, order, D)
  {
    var st := Starts(region, wall, icon, visited, rid);
    StartsPinned(region, wall, icon, visited, rid, st, mask, vis);
    edges', log', vis', pushed', starts, D, parent, order := edges, log, vis, pushed, {}, map[], map[], [];
    if |st| > 0 {
      starts := Elems(st);
      edges', log', vis', pushed', D, parent, order := Flood(region, wall, icon, visited, rid, st, mask, positive,
                                                             edges0, edges, log, vis, pushed, g);
    } else {
      assert pushed' == pushed + [] && D.Keys == Elems(order);
    }
  }

  /** The starts of room `rid` are exactly the mask pixels of its dilation,
      read from the id grid, that are not yet visited. */
  lemma StartsPinned(region: array2<int>, wall: array2<int>, icon: array2<int>, visited: array2<bool>, rid: int,
                     st: seq<Pos>, mask: set<Pos>, vis: set<Pos>)
    requires SameShape(region, wall) && SameShape(visited, wall) && SameShape(wall, icon)
    requires rid != 0 && Covers(wall, icon, mask) && Within(wall, icon, mask)
    requires forall p :: Inside(visited, p) ==> (Get(visited, p) <==> p in vis)
    requires forall q :: q in st <==> IsStart(region, wall, icon, visited, rid, q)
    ensures forall q :: q in st <==> q in mask && q !in vis && NearId(IdGrid(region), rid, q)
  {
    forall q: Pos
      ensures q in st <==> q in mask && q !in vis && NearId(IdGrid(region), rid, q)
    {
      NearIdAgree(region, rid, q);
    }
  }

  /** Right after seeding, no start was visited before and nothing is dequeued yet. */
  lemma SweptSeed(vis: set<Pos>, mask: set<Pos>, st: seq<Pos>, D: map<Pos, int>)
    requires D.Keys == Elems(st) && forall q :: q in st ==> q !in vis
    ensures Swept(vis, mask, [], vis + Elems(st), D)
  {
  }

  /** At the end of a room's search from the pixels `vis` visited before it,
      the pixels it reached are exactly those it dequeued, none visited
      before, and every mask neighbour of a dequeued pixel was visited before
      or dequeued. */
  lemma SweptEnd(vis: set<Pos>, pushed: seq<Pos>, order: seq<Pos>, vis': set<Pos>, mask: set<Pos>, D: map<Pos, int>)
    requires vis == Elems(pushed) && (forall p :: p in vis' <==> p in pushed + order) && vis' <= mask
    requires Swept(vis, mask, order, vis', D) && D.Keys <= vis' && Reached(order, D)
    ensures D.Keys == Elems(order) && D.Keys <= mask - vis
    ensures forall c :: c in order ==> Ringed(c, mask, vis + Elems(order))
  {
  }

  /** The flood of one room from its starts `st` (lines 108-203): a fresh
      distance grid, the starts enqueued at distance 1, and the search. */
  method Flood(region: array2<int>, wall: array2<int>, icon: array2<int>, visited: array2<bool>, rid: int,
               st: seq<Pos>, ghost mask: set<Pos>, ghost positive: bool,
               edges0: EdgeMap, edges: EdgeMap, ghost log: seq<Conn>, ghost vis: set<Pos>, ghost pushed: seq<Pos>,
               ghost g: seq<seq<int>>)
    returns (edges': EdgeMap, ghost log': seq<Conn>, ghost vis': set<Pos>, ghost pushed': seq<Pos>,
             ghost D: map<Pos, int>, ghost parent: map<Pos, Pos>, ghost order: seq<Pos>)
    modifies visited
    requires SameShape(region, wall) && SameShape(visited, wall) && SameShape(wall, icon)
    requires Covers(wall, icon, mask) && Within(wall, icon, mask)
    requires positive == NonNegative(region) && rid != 0 && (positive ==> rid > 0)
    requires PassInv(visited, mask, positive, vis, pushed, edges0, edges, log)
    requires forall i, j :: 0 <= i < j < |st| ==> Before(st[i], st[j])
    requires forall q :: q in st ==> q in mask && Inside(visited, q) && !Get(visited, q)
    requires g == IdGrid(region)
    ensures PassInv(visited, mask, positive, vis', pushed', edges0, edges', log')
    ensures D.Keys <= vis' && Layered(D, parent, Elems(st)) && Reached(order, D)
    ensures D.Keys == Elems(order) && D.Keys <= mask - vis
    ensures forall c :: c in order ==> Ringed(c, mask, vis + Elems(order))
    ensures pushed' == pushed + order
    ensures log' == ContactLog(g, rid, log, order, D)
  {
    assert vis == Elems(pushed) && forall q :: q in st ==> q !in vis;
    assert Frozen(region, wall, icon, mask, positive, g);
    OrderedDistinct(st);
    var dist, queue;
    ghost var vis1, pushed1, D1;
    dist, queue, vis1, pushed1, D1 := Seed(visited, st, mask, vis, pushed);
    SeedFacts(st, vis, pushed, D1);
    SweptSeed(vis, mask, st, D1);
    ghost var done;
    edges', log', vis', pushed', done, D, parent, order := Search(region, wall, icon, visited, dist, rid, queue, mask,
                                                                  positive, Elems(st), vis1, pushed1, pushed, D1, map[],
                                                                  edges0, edges, log, g, pushed, log, [], vis);
    assert pushed' == done + [] == done;
    ThenConcat(pushed, order);
    SweptEnd(vis, pushed, order, vis', mask, D);
  }

  /** A listed room id is not 0, and positive on a map without negative ids. */
  lemma RoomIdFacts(region: array2<int>, ids: seq<int>, i: int)
    requires ids == RoomIdList(region) && 0 <= i < |ids|
    ensures ids[i] != 0 && (NonNegative(region) ==> ids[i] > 0)
  {
    assert ids[i] in ids;
    if NonNegative(region) {
      var q :| Inside(region, q) && Get(region, q) == ids[i];
    }
  }

  /** Pixels listed once each, all in the mask, are no more than the mask has. */
  lemma PushedBound(vis: set<Pos>, pushed: seq<Pos>, mask: set<Pos>)
    requires NoDuplicates(pushed) && (forall p :: p in vis <==> p in pushed) && vis <= mask
    ensures |pushed| <= |mask|
  {
    ElemsCard(pushed);
    assert Elems(pushed) == vis;
    SubsetCard(vis, mask);
  }

  /** What one room's search leaves, after the rooms before it visited the
      pixels `before`: its starts are exactly the mask pixels of its
      dilation not visited before, its distances are layered from them, the
      pixels it reached are exactly those it dequeued, all mask pixels not
      visited before, and every mask neighbour of a pixel it dequeued was
      visited before or dequeued by this room. */
  ghost predicate RoomDone(g: seq<seq<int>>, mask: set<Pos>, rid: int, before: set<Pos>,
                           order: seq<Pos>, D: map<Pos, int>, parent: map<Pos, Pos>, starts: set<Pos>)
  {
    && (forall q :: q in starts <==> q in mask && q !in before && NearId(g, rid, q))
    && Layered(D, parent, starts)
    && D.Keys == Elems(order) && D.Keys <= mask - before
    && (forall c :: c in order ==> Ringed(c, mask, before + Elems(order)))
  }

  /** `q` is in the 4-dilation of room `rid`, read from an id grid. */
  ghost predicate NearId(g: seq<seq<int>>, rid: int, q: Pos)
  {
    && 0 <= q.0 < |g| && 0 <= q.1 < |g[q.0]|
    && (|| IdAt(g, q) == rid || IdAt(g, Step(q, North)) == rid || IdAt(g, Step(q, South)) == rid
        || IdAt(g, Step(q, West)) == rid || IdAt(g, Step(q, East)) == rid)
  }

  /** For a room id, the dilation read from the region and from its id grid agree. */
  lemma NearIdAgree(region: array2<int>, rid: int, q: Pos)
    requires rid != 0
    ensures NearRoom(region, rid, q) <==> NearId(IdGrid(region), rid, q)
  {
    var g := IdGrid(region);
    assert |g| == region.Length0 && forall i :: 0 <= i < |g| ==> |g[i]| == region.Length1;
    forall dir: Dir
      ensures (Inside(region, Step(q, dir)) && Get(region, Step(q, dir)) == rid) <==> IdAt(g, Step(q, dir)) == rid
    {
      var n := Step(q, dir);
      if Inside(region, n) {
        assert IdAt(g, n) == region[n.0, n.1];
      }
    }
    if Inside(region, q) {
      assert IdAt(g, q) == region[q.0, q.1];
    }
  }

  /** Every one of the first `|orders|` rooms of `ids` left what `RoomDone` says. */
  ghost predicate AllDone(g: seq<seq<int>>, mask: set<Pos>, ids: seq<int>, orders: seq<seq<Pos>>,
                          Ds: seq<map<Pos, int>>, parents: seq<map<Pos, Pos>>, starts: seq<set<Pos>>)
    requires |orders| == |Ds| == |parents| == |starts| <= |ids|
    decreases |orders|
  {
    var n := |orders|;
    n == 0 ||
    (AllDone(g, mask, ids, orders[..n - 1], Ds[..n - 1], parents[..n - 1], starts[..n - 1]) &&
     RoomDone(g, mask, ids[n - 1], EnqueuedBy(orders, n - 1), orders[n - 1], Ds[n - 1], parents[n - 1],
              starts[n - 1]))
  }

  /** One more room that left what `RoomDone` says keeps `AllDone`. */
  lemma AllDoneSnoc(g: seq<seq<int>>, mask: set<Pos>, ids: seq<int>, orders: seq<seq<Pos>>,
                    Ds: seq<map<Pos, int>>, parents: seq<map<Pos, Pos>>, starts: seq<set<Pos>>,
                    order: seq<Pos>, D: map<Pos, int>, parent: map<Pos, Pos>, st: set<Pos>)
    requires |orders| == |Ds| == |parents| == |starts| < |ids|
    requires AllDone(g, mask, ids, orders, Ds, parents, starts)
    requires RoomDone(g, mask, ids[|orders|], EnqueuedBy(orders + [order], |orders|), order, D, parent, st)
    ensures AllDone(g, mask, ids, orders + [order], Ds + [D], parents + [parent], starts + [st])
  {
    assert (orders + [order])[..|orders|] == orders;
    assert (Ds + [D])[..|Ds|] == Ds;
    assert (parents + [parent])[..|parents|] == parents;
    assert (starts + [st])[..|starts|] == starts;
  }

  /** `AllDone` holds room by room. */
  lemma {:induction false} AllDoneAt(g: seq<seq<int>>, mask: set<Pos>, ids: seq<int>, orders: seq<seq<Pos>>,
                                     Ds: seq<map<Pos, int>>, parents: seq<map<Pos, Pos>>, starts: seq<set<Pos>>)
    requires |orders| == |Ds| == |parents| == |starts| <= |ids|
    requires AllDone(g, mask, ids, orders, Ds, parents, starts)
    ensures forall i :: 0 <= i < |orders| ==>
      RoomDone(g, mask, ids[i], EnqueuedBy(orders, i), orders[i], Ds[i], parents[i], starts[i])
    decreases |orders|
  {
    var n := |orders|;
    if n > 0 {
      AllDoneAt(g, mask, ids, orders[..n - 1], Ds[..n - 1], parents[..n - 1], starts[..n - 1]);
      forall i | 0 <= i < n
        ensures RoomDone(g, mask, ids[i], EnqueuedBy(orders, i), orders[i], Ds[i], parents[i], starts[i])
      {
        if i < n - 1 {
          assert orders[..n - 1][..i] == orders[..i];
          assert EnqueuedBy(orders[..n - 1], i) == EnqueuedBy(orders, i);
          assert orders[..n - 1][i] == orders[i] && Ds[..n - 1][i] == Ds[i];
          assert parents[..n - 1][i] == parents[i] && starts[..n - 1][i] == starts[i];
        }
      }
    }
  }

  /** The pixels the first `i` rooms enqueued. */
  ghost function EnqueuedBy(orders: seq<seq<Pos>>, i: nat): set<Pos>
    requires i <= |orders|
  {
    Elems(Flatten(orders[..i]))
  }

  /** The rooms' dequeue orders, one after the other. */
  function Flatten(orders: seq<seq<Pos>>): seq<Pos>
    decreases |orders|
  {
    if |orders| == 0 then [] else Flatten(orders[..|orders| - 1]) + orders[|orders| - 1]
  }

  /** The connections of the first `|orders|` rooms of `ids`, room by room,
      each the contact log of its dequeue order at its distances. */
  ghost function RoomsLog(g: seq<seq<int>>, ids: seq<int>, orders: seq<seq<Pos>>, Ds: seq<map<Pos, int>>): seq<Conn>
    requires |orders| == |Ds| <= |ids|
    decreases |orders|
  {
    if |orders| == 0 then []
    else ContactLog(g, ids[|orders| - 1], RoomsLog(g, ids, orders[..|orders| - 1], Ds[..|Ds| - 1]),
                    orders[|orders| - 1], Ds[|Ds| - 1])
  }

  /** One more room appends its order and its contact log. */
  lemma RoomsSnoc(g: seq<seq<int>>, ids: seq<int>, orders: seq<seq<Pos>>, Ds: seq<map<Pos, int>>,
                  order: seq<Pos>, D: map<Pos, int>)
    requires |orders| == |Ds| < |ids|
    ensures Flatten(orders + [order]) == Flatten(orders) + order
    ensures RoomsLog(g, ids, orders + [order], Ds + [D])
            == ContactLog(g, ids[|orders|], RoomsLog(g, ids, orders, Ds), order, D)
  {
    assert (orders + [order])[..|orders|] == orders;
    assert (Ds + [D])[..|Ds|] == Ds;
  }

  /** The distance pass's account of its log: room by room, in increasing
      id order, what the room's search left and the contacts of the pixels
      it dequeued, in that order, at their distances. */
  ghost predicate Accounted(region: array2<int>, wall: array2<int>, icon: array2<int>, log: seq<Conn>,
                            orders: seq<seq<Pos>>, Ds: seq<map<Pos, int>>, parents: seq<map<Pos, Pos>>,
                            starts: seq<set<Pos>>)
    reads region, wall, icon
  {
    && |orders| == |Ds| == |parents| == |starts| == |RoomIdList(region)|
    && AllDone(IdGrid(region), MaskSet(wall, icon), RoomIdList(region), orders, Ds, parents, starts)
    && log == RoomsLog(IdGrid(region), RoomIdList(region), orders, Ds)
  }

  /** What the pass reads of the grids, as values: the wall mask, whether
      the map has no negative ids, and its id grid. */
  ghost predicate Fixed(region: array2<int>, wall: array2<int>, icon: array2<int>,
                        mask: set<Pos>, positive: bool, g: seq<seq<int>>)
    reads region, wall, icon
  {
    mask == MaskSet(wall, icon) && positive == NonNegative(region) && g == IdGrid(region)
  }

  /** The search of room `ids[i]` within the pass (lines 90-203), and the
      accounts of the pass extended by it. */
  method NextRoom(region: array2<int>, wall: array2<int>, icon: array2<int>, visited: array2<bool>, ids: seq<int>, i: int,
                  ghost mask: set<Pos>, ghost positive: bool, ghost g: seq<seq<int>>,
                  edges0: EdgeMap, edges: EdgeMap, ghost log: seq<Conn>, ghost vis: set<Pos>, ghost pushed: seq<Pos>,
                  ghost orders: seq<seq<Pos>>, ghost Ds: seq<map<Pos, int>>, ghost parents: seq<map<Pos, Pos>>,
                  ghost starts: seq<set<Pos>>)
    returns (edges': EdgeMap, ghost log': seq<Conn>, ghost vis': set<Pos>, ghost pushed': seq<Pos>,
             ghost orders': seq<seq<Pos>>, ghost Ds': seq<map<Pos, int>>, ghost parents': seq<map<Pos, Pos>>,
             ghost starts': seq<set<Pos>>)
    modifies visited
    requires SameShape(region, wall) && SameShape(visited, wall) && SameShape(wall, icon)
    requires 0 <= i < |ids| && ids[i] != 0 && (positive ==> ids[i] > 0)
    requires Fixed(region, wall, icon, mask, positive, g)
    requires PassInv(visited, mask, positive, vis, pushed, edges0, edges, log)
    requires |orders| == |Ds| == |parents| == |starts| == i
    requires AllDone(g, mask, ids, orders, Ds, parents, starts)
    requires pushed == Flatten(orders) && log == RoomsLog(g, ids, orders, Ds)
    ensures PassInv(visited, mask, positive, vis', pushed', edges0, edges', log')
    ensures |orders'| == |Ds'| == |parents'| == |starts'| == i + 1
    ensures AllDone(g, mask, ids, orders', Ds', parents', starts')
    ensures pushed' == Flatten(orders') && log' == RoomsLog(g, ids, orders', Ds')
  {
    var rid := ids[i];
    assert vis == Elems(Flatten(orders));
    ghost var st, D, parent, order;
    edges', log', vis', pushed', st, D, parent, order := RoomSearch(region, wall, icon, visited, rid, mask, positive,
                                                                    edges0, edges, log, vis, pushed, g);
    assert (orders + [order])[..i] == orders;
    assert EnqueuedBy(orders + [order], i) == vis;
    RoomsSnoc(g, ids, orders, Ds, order, D);
    AllDoneSnoc(g, mask, ids, orders, Ds, parents, starts, order, D, parent, st);
    orders', Ds', parents', starts' := orders + [order], Ds + [D], parents + [parent], starts + [st];
  }

  /** The wall pass of the earlier variant (lines 90-203): the rooms in
      increasing id order share one visited grid.  It records only valid
      wall connections (positive ids on a map without negative ids, extent
      at least 1), every pixel it enqueues is a mask pixel and none is
      enqueued twice, and each enqueued pixel accounts for at most four
      connections.  The log is, room after room, the contacts of the pixels
      each room dequeued, in that order, at their layered distances. */
  method DistancePass(region: array2<int>, wall: array2<int>, icon: array2<int>, edges: EdgeMap)
    returns (edges': EdgeMap, ghost log: seq<Conn>, ghost pushed: seq<Pos>, ghost orders: seq<seq<Pos>>,
             ghost Ds: seq<map<Pos, int>>, ghost parents: seq<map<Pos, Pos>>, ghost starts: seq<set<Pos>>)
    requires SameShape(region, wall) && SameShape(wall, icon)
    ensures edges' == Replay(edges, log)
    ensures WallConns(log, NonNegative(region))
    ensures NoDuplicates(pushed) && forall p :: p in pushed ==> InMask(wall, icon, p)
    ensures |log| <= 4 * |pushed| && |pushed| <= |MaskSet(wall, icon)|
    ensures Accounted(region, wall, icon, log, orders, Ds, parents, starts)
    ensures pushed == Flatten(orders)
  {
    ghost var mask := MaskSet(wall, icon);
    ghost var positive := NonNegative(region);
    var ids := RoomIdList(region);
    ghost var g := IdGrid(region);
    var visited := new bool[wall.Length0, wall.Length1]((x, y) => false);
    forall k | 0 <= k < |ids|
      ensures ids[k] != 0 && (positive ==> ids[k] > 0)
    {
      RoomIdFacts(region, ids, k);
    }
    ghost var vis;
    edges', log, vis, pushed, orders, Ds, parents, starts := Rooms(region, wall, icon, visited, ids, mask, positive, g, edges);
    PushedBound(vis, pushed, mask);
  }

  /** The loop over the rooms of `ids`, in that order, sharing one visited grid (lines 90-203). */
  method Rooms(region: array2<int>, wall: array2<int>, icon: array2<int>, visited: array2<bool>, ids: seq<int>,
               ghost mask: set<Pos>, ghost positive: bool, ghost g: seq<seq<int>>, edges: EdgeMap)
    returns (edges': EdgeMap, ghost log: seq<Conn>, ghost vis: set<Pos>, ghost pushed: seq<Pos>,
             ghost orders: seq<seq<Pos>>, ghost Ds: seq<map<Pos, int>>, ghost parents: seq<map<Pos, Pos>>,
             ghost starts: seq<set<Pos>>)
    modifies visited
    requires SameShape(region, wall) && SameShape(visited, wall) && SameShape(wall, icon)
    requires Fixed(region, wall, icon, mask, positive, g)
    requires forall k :: 0 <= k < |ids| ==> ids[k] != 0 && (positive ==> ids[k] > 0)
    requires PassInv(visited, mask, positive, {}, [], edges, edges, [])
    ensures PassInv(visited, mask, positive, vis, pushed, edges, edges', log)
    ensures Fixed(region, wall, icon, mask, positive, g)
    ensures |orders| == |Ds| == |parents| == |starts| == |ids|
    ensures AllDone(g, mask, ids, orders, Ds, parents, starts)
    ensures pushed == Flatten(orders) && log == RoomsLog(g, ids, orders, Ds)
  {
    edges', log, vis, pushed, orders, Ds, parents, starts := edges, [], {}, [], [], [], [], [];
    for i := 0 to |ids|
      modifies visited
      invariant PassInv(visited, mask, positive, vis, pushed, edges, edges', log)
      invariant |orders| == |Ds| == |parents| == |starts| == i
      invariant AllDone(g, mask, ids, orders, Ds, parents, starts)
      invariant Fixed(region, wall, icon, mask, positive, g) && pushed == Flatten(orders) && log == RoomsLog(g, ids, orders, Ds)
    {
      edges', log, vis, pushed, orders, Ds, parents, starts := NextRoom(region, wall, icon, visited, ids, i, mask, positive, g,
                                                                        edges, edges', log, vis, pushed,
                                                                        orders, Ds, parents, starts);
    }
  }
}
