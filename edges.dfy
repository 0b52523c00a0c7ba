/** The adjacency dictionary shared by all detection passes: one entry per
    unordered room pair, keyed by the pair with the smaller id first. */
module Edges {

  /** The connection kinds 'door', 'window' and 'wall'. */
  datatype Kind = Door | Window | Wall

  type Key = (int, int)

  /** One entry: `connection_types`, `num_door_window`, `area_door_window`,
      `num_wall` and `area_wall`. */
  datatype Edge = Edge(types: set<Kind>, numDoorWindow: int, areaDoorWindow: int, numWall: int, areaWall: int)

  type EdgeMap = map<Key, Edge>

  /** The entry `ensure_edge_entry` creates. */
  const Fresh: Edge := Edge({}, 0, 0, 0, 0)

  /** The canonical key of a room pair: `(a, b) if a < b else (b, a)`. */
  function Canon(a: int, b: int): (k: Key)
    ensures k.0 <= k.1
    ensures (k.0 == a && k.1 == b) || (k.0 == b && k.1 == a)
  {
    if a < b then (a, b) else (b, a)
  }

  /** `ensure_edge_entry(a, b)`: the map with an entry for the pair, and its key. */
  function EnsureEntry(edges: EdgeMap, a: int, b: int): (r: (EdgeMap, Key))
    ensures r.1 == Canon(a, b) && r.1 in r.0
    ensures r.0.Keys == edges.Keys + {r.1}
    ensures forall k :: k in edges ==> r.0[k] == edges[k]
    ensures r.1 !in edges ==> r.0[r.1] == Fresh
  {
    var key := Canon(a, b);
    if key in edges then (edges, key) else (edges[key := Fresh], key)
  }

  /** One recorded connection between rooms `a` and `b`, of extent `area`
      (pixels of a door or window, pixels of a wall segment, or a wall distance). */
  datatype Conn = Conn(kind: Kind, a: int, b: int, area: int)

  /** The dictionary update every pass performs for one connection. */
  function Add(edges: EdgeMap, c: Conn): EdgeMap
  {
    var (e, key) := EnsureEntry(edges, c.a, c.b);
    var x := e[key];
    if c.kind == Wall then
      e[key := x.(types := x.types + {Wall}, numWall := x.numWall + 1, areaWall := x.areaWall + c.area)]
    else
      e[key := x.(types := x.types + {c.kind}, numDoorWindow := x.numDoorWindow + 1,
                  areaDoorWindow := x.areaDoorWindow + c.area)]
  }

  /** The dictionary after recording `log` in order. */
  function Replay(edges: EdgeMap, log: seq<Conn>): EdgeMap
  {
    if log == [] then edges else Add(Replay(edges, log[..|log| - 1]), log[|log| - 1])
  }

  lemma ReplayAppend(edges: EdgeMap, log: seq<Conn>, c: Conn)
    ensures Replay(edges, log + [c]) == Add(Replay(edges, log), c)
  {
    assert (log + [c])[..|log|] == log;
  }

  lemma {:induction false} ReplayConcat(edges: EdgeMap, log: seq<Conn>, more: seq<Conn>)
    ensures Replay(edges, log + more) == Replay(Replay(edges, log), more)
    decreases |more|
  {
    if more == [] {
      assert log + more == log;
    } else {
      var init := more[..|more| - 1];
      assert (log + more)[..|log + more| - 1] == log + init;
      ReplayConcat(edges, log, init);
    }
  }

  /** A connection the passes may record: two distinct ids, neither the
      background id 0, and a positive extent. */
  predicate ValidConn(c: Conn)
  {
    c.a != 0 && c.b != 0 && c.a != c.b && c.area >= 1
  }

  /** What every entry satisfies: a canonical key of two distinct ids other
      than 0, 'door' or 'window' listed exactly when the opening counter is
      positive, 'wall' listed exactly when the wall counter is positive, and
      areas no smaller than counts. */
  predicate ValidEdge(k: Key, e: Edge)
  {
    && k.0 < k.1 && k.0 != 0 && k.1 != 0
    && (Door in e.types || Window in e.types <==> e.numDoorWindow >= 1)
    && (Wall in e.types <==> e.numWall >= 1)
    && 0 <= e.numDoorWindow <= e.areaDoorWindow
    && 0 <= e.numWall <= e.areaWall
  }

  predicate ValidEdges(edges: EdgeMap)
  {
    forall k :: k in edges ==> ValidEdge(k, edges[k])
  }

  /** Recording a valid connection keeps the dictionary valid, and the entry
      it touches then lists at least one connection type. */
  lemma AddValid(edges: EdgeMap, c: Conn)
    requires ValidEdges(edges) && ValidConn(c)
    ensures ValidEdges(Add(edges, c))
    ensures Canon(c.a, c.b) in Add(edges, c) && c.kind in Add(edges, c)[Canon(c.a, c.b)].types
  {
  }

  lemma {:induction false} ReplayValid(edges: EdgeMap, log: seq<Conn>)
    requires ValidEdges(edges)
    requires forall i :: 0 <= i < |log| ==> ValidConn(log[i])
    ensures ValidEdges(Replay(edges, log))
  {
    if log != [] {
      ReplayValid(edges, log[..|log| - 1]);
      AddValid(Replay(edges, log[..|log| - 1]), log[|log| - 1]);
    }
  }

  /** Every key holds two positive ids. */
  predicate PositiveKeys(edges: EdgeMap)
  {
    forall k :: k in edges ==> 0 < k.0 && 0 < k.1
  }

  lemma {:induction false} ReplayPositive(edges: EdgeMap, log: seq<Conn>)
    requires PositiveKeys(edges)
    requires forall i :: 0 <= i < |log| ==> 0 < log[i].a && 0 < log[i].b
    ensures PositiveKeys(Replay(edges, log))
  {
    if log != [] {
      ReplayPositive(edges, log[..|log| - 1]);
    }
  }

  /** A log of wall connections, each valid, with positive ids when `positive` holds. */
  predicate WallConns(log: seq<Conn>, positive: bool)
  {
    forall i :: 0 <= i < |log| ==> log[i].kind == Wall && ValidConn(log[i]) && (positive ==> 0 < log[i].a && 0 < log[i].b)
  }

  lemma WallConnsSnoc(log: seq<Conn>, c: Conn, positive: bool)
    requires WallConns(log, positive)
    requires c.kind == Wall && ValidConn(c) && (positive ==> 0 < c.a && 0 < c.b)
    ensures WallConns(log + [c], positive)
  {
    forall i | 0 <= i < |log| + 1
      ensures (log + [c])[i].kind == Wall && ValidConn((log + [c])[i])
    {
      if i < |log| {
        assert (log + [c])[i] == log[i];
      }
    }
  }

  /** The entry for `k`, or the fresh entry when there is none. */
  function Entry(edges: EdgeMap, k: Key): Edge
  {
    if k in edges then edges[k] else Fresh
  }

  /** The wall connections in `log` for pair `k`: how many, and their total extent. */
  function WallCount(log: seq<Conn>, k: Key): int
  {
    if log == [] then 0
    else WallCount(log[..|log| - 1], k) + (if log[|log| - 1].kind == Wall && Canon(log[|log| - 1].a, log[|log| - 1].b) == k then 1 else 0)
  }

  function WallArea(log: seq<Conn>, k: Key): int
  {
    if log == [] then 0
    else WallArea(log[..|log| - 1], k) + (if log[|log| - 1].kind == Wall && Canon(log[|log| - 1].a, log[|log| - 1].b) == k then log[|log| - 1].area else 0)
  }

  function OpeningCount(log: seq<Conn>, k: Key): int
  {
    if log == [] then 0
    else OpeningCount(log[..|log| - 1], k) + (if log[|log| - 1].kind != Wall && Canon(log[|log| - 1].a, log[|log| - 1].b) == k then 1 else 0)
  }

  function OpeningArea(log: seq<Conn>, k: Key): int
  {
    if log == [] then 0
    else OpeningArea(log[..|log| - 1], k) + (if log[|log| - 1].kind != Wall && Canon(log[|log| - 1].a, log[|log| - 1].b) == k then log[|log| - 1].area else 0)
  }

  /** Nothing is lost or invented: after replaying a log, each pair's
      counters are its starting counters plus the connections the log holds
      for that pair, and a pair has an entry exactly when it had one or
      the log mentions it. */
  lemma ReplayTotals(edges: EdgeMap, log: seq<Conn>, k: Key)
    ensures Entry(Replay(edges, log), k).numWall == Entry(edges, k).numWall + WallCount(log, k)
    ensures Entry(Replay(edges, log), k).areaWall == Entry(edges, k).areaWall + WallArea(log, k)
    ensures Entry(Replay(edges, log), k).numDoorWindow == Entry(edges, k).numDoorWindow + OpeningCount(log, k)
    ensures Entry(Replay(edges, log), k).areaDoorWindow == Entry(edges, k).areaDoorWindow + OpeningArea(log, k)
    ensures k in Replay(edges, log) <==> k in edges || exists i :: 0 <= i < |log| && Canon(log[i].a, log[i].b) == k
  {
    ReplayWallTotals(edges, log, k);
    ReplayOpeningTotals(edges, log, k);
    ReplayKeys(edges, log, k);
  }

  lemma {:induction false} ReplayWallTotals(edges: EdgeMap, log: seq<Conn>, k: Key)
    ensures Entry(Replay(edges, log), k).numWall == Entry(edges, k).numWall + WallCount(log, k)
    ensures Entry(Replay(edges, log), k).areaWall == Entry(edges, k).areaWall + WallArea(log, k)
  {
    if log != [] {
      ReplayWallTotals(edges, log[..|log| - 1], k);
    }
  }

  lemma {:induction false} ReplayOpeningTotals(edges: EdgeMap, log: seq<Conn>, k: Key)
    ensures Entry(Replay(edges, log), k).numDoorWindow == Entry(edges, k).numDoorWindow + OpeningCount(log, k)
    ensures Entry(Replay(edges, log), k).areaDoorWindow == Entry(edges, k).areaDoorWindow + OpeningArea(log, k)
  {
    if log != [] {
      ReplayOpeningTotals(edges, log[..|log| - 1], k);
    }
  }

  /** A pair has an entry after a replay exactly when it had one or the log mentions it. */
  lemma {:induction false} ReplayKeys(edges: EdgeMap, log: seq<Conn>, k: Key)
    ensures k in Replay(edges, log) <==> k in edges || exists i :: 0 <= i < |log| && Canon(log[i].a, log[i].b) == k
  {
    if log != [] {
      var init := log[..|log| - 1];
      ReplayKeys(edges, init, k);
      if k in Replay(edges, log) && k !in edges {
        if Canon(log[|log| - 1].a, log[|log| - 1].b) != k {
          var i :| 0 <= i < |init| && Canon(init[i].a, init[i].b) == k;
          assert log[i] == init[i];
        }
      }
      if exists i :: 0 <= i < |log| && Canon(log[i].a, log[i].b) == k {
        var i :| 0 <= i < |log| && Canon(log[i].a, log[i].b) == k;
        if i < |init| {
          assert init[i] == log[i];
        }
      }
    }
  }

  /** The wall extent of a list of connections. */
  function LogWallArea(log: seq<Conn>): int
  {
    if log == [] then 0
    else LogWallArea(log[..|log| - 1]) + (if log[|log| - 1].kind == Wall then log[|log| - 1].area else 0)
  }

  lemma LogWallAreaSnoc(log: seq<Conn>, c: Conn)
    ensures LogWallArea(log + [c]) == LogWallArea(log) + (if c.kind == Wall then c.area else 0)
  {
    assert (log + [c])[..|log|] == log;
  }

  lemma SomeKey(m: EdgeMap)
    requires |m| != 0
    ensures exists k :: k in m
  {
    assert (forall k :: k !in m) ==> m.Keys == {};
  }

  /** Some key of a map that is not empty. */
  ghost function AnyKey(m: EdgeMap): (k: Key)
    requires |m| != 0
    ensures k in m
  {
    SomeKey(m);
    var k :| k in m;
    k
  }

  /** The sum of `area_wall` over all entries. */
  ghost function TotalWallArea(m: EdgeMap): int
    decreases |m|
  {
    if |m| == 0 then 0
    else m[AnyKey(m)].areaWall + TotalWallArea(m - {AnyKey(m)})
  }

  /** The sum may be split at any key. */
  lemma {:induction false} TotalWallAreaAt(m: EdgeMap, k: Key)
    requires k in m
    ensures TotalWallArea(m) == m[k].areaWall + TotalWallArea(m - {k})
    decreases |m|
  {
    var j := AnyKey(m);
    if j != k {
      var mj, mk := m - {j}, m - {k};
      assert k in mj && j in mk;
      TotalWallAreaAt(mj, k);
      TotalWallAreaAt(mk, j);
      assert mj - {k} == mk - {j};
      assert mj[k] == m[k] && mk[j] == m[j];
    }
  }

  lemma TotalWallAreaUpdate(m: EdgeMap, k: Key, e: Edge)
    ensures TotalWallArea(m[k := e]) == TotalWallArea(m) - Entry(m, k).areaWall + e.areaWall
  {
    TotalWallAreaAt(m[k := e], k);
    assert m[k := e] - {k} == m - {k};
    if k in m {
      TotalWallAreaAt(m, k);
    } else {
      assert m - {k} == m;
    }
  }

  lemma AddTotalWallArea(edges: EdgeMap, c: Conn)
    ensures TotalWallArea(Add(edges, c)) == TotalWallArea(edges) + (if c.kind == Wall then c.area else 0)
  {
    var (e, key) := EnsureEntry(edges, c.a, c.b);
    if key !in edges {
      TotalWallAreaUpdate(edges, key, Fresh);
    }
    TotalWallAreaUpdate(e, key, Add(edges, c)[key]);
    assert Add(edges, c) == e[key := Add(edges, c)[key]];
  }

  /** Over the whole dictionary, `area_wall` grows by exactly the wall extent the log records. */
  lemma {:induction false} ReplayTotalWallArea(edges: EdgeMap, log: seq<Conn>)
    ensures TotalWallArea(Replay(edges, log)) == TotalWallArea(edges) + LogWallArea(log)
  {
    if log != [] {
      ReplayTotalWallArea(edges, log[..|log| - 1]);
      AddTotalWallArea(Replay(edges, log[..|log| - 1]), log[|log| - 1]);
    }
  }
}
