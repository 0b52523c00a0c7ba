/** The door and window passes: each 4-connected component of door pixels
    (icon value 1) or window pixels (icon value 2) links the rooms it
    touches.  The main and the second variant look at the one-pixel ring
    around a component and need exactly two rooms there; the first variant
    looks at the dilated component and takes the two smallest rooms. */
module Openings {
  import opened Grid
  import opened Components
  import opened Edges

  /** The pixels of `icon` that hold `val` (`icon_array == val`). */
  method ValueMask(icon: array2<int>, val: int) returns (mask: array2<bool>)
    ensures SameShape(mask, icon)
    ensures forall p :: Inside(mask, p) ==> (Get(mask, p) <==> Get(icon, p) == val)
  {
    mask := new bool[icon.Length0, icon.Length1]((x, y) reads icon
      requires 0 <= x < icon.Length0 && 0 <= y < icon.Length1 => icon[x, y] == val);
  }

  /** The labelling of the pixels with icon value `val`: the mask of those
      pixels, the label grid, the number of components, and the seeds and
      routes that witness the labels are its 4-connected components. */
  datatype IconLabels = IconLabels(mask: array2<bool>, lab: array2<int>, n: nat, seeds: seq<Pos>, routes: map<Pos, seq<Pos>>)

  /** `L` labels the 4-connected components of the pixels of `icon` holding `val`. */
  ghost predicate ComponentsOf(icon: array2<int>, val: int, L: IconLabels)
    reads icon, L.mask, L.lab
  {
    && SameShape(L.mask, icon)
    && (forall p :: Inside(L.mask, p) ==> (Get(L.mask, p) <==> Get(icon, p) == val))
    && IsLabelling(L.mask, L.lab, L.n, L.seeds, L.routes)
  }

  /** The 4-connected components of the pixels with icon value `val`
      (`label(icon_array == val)`): exactly those pixels are labelled, with
      labels 1 to `n`, and two of them share a label exactly when a path
      of such pixels joins them. */
  method IconComponents(icon: array2<int>, val: int) returns (lab: array2<int>, n: nat, ghost L: IconLabels)
    ensures L.lab == lab && L.n == n && ComponentsOf(icon, val, L)
    ensures SameShape(lab, icon)
    ensures forall p :: Inside(lab, p) ==> (Get(lab, p) != 0 <==> Get(icon, p) == val)
    ensures forall p :: Inside(lab, p) ==> 0 <= Get(lab, p) <= n
    ensures forall p, q :: Inside(lab, p) && Inside(lab, q) && Get(icon, p) == val ==>
              (Get(lab, q) == Get(lab, p) <==> Connected(L.mask, p, q))
  {
    var mask := ValueMask(icon, val);
    ghost var seeds, pushed, routes;
    lab, n, seeds, pushed, routes := Label(mask);
    L := IconLabels(mask, lab, n, seeds, routes);
    forall p, q | Inside(lab, p) && Inside(lab, q) && Get(icon, p) == val
      ensures Get(lab, q) == Get(lab, p) <==> Connected(mask, p, q)
    {
      LabelIsComponent(mask, lab, n, seeds, routes, p, q);
    }
  }

  /** The ring of component `l`: pixels outside it with a 4-neighbour in it
      (the cross dilation with border value 0, minus the component). */
  function Ring(lab: array2<int>, l: int): (s: set<Pos>)
    reads lab
    ensures forall p {:trigger p in s} :: p in s <==> Inside(lab, p) && Get(lab, p) != l && NextTo(lab, p, l)
  {
    set p | p in AllPixels(lab.Length0, lab.Length1) && Get(lab, p) != l && NextTo(lab, p, l)
  }

  /** The cross dilation of component `l`, the component included. */
  function Halo(lab: array2<int>, l: int): (s: set<Pos>)
    reads lab
    ensures forall p {:trigger p in s} :: p in s <==> Inside(lab, p) && (Get(lab, p) == l || NextTo(lab, p, l))
  {
    set p | p in AllPixels(lab.Length0, lab.Length1) && (Get(lab, p) == l || NextTo(lab, p, l))
  }

  /** How a component picks the rooms it links. */
  datatype Rule =
    | ExactlyTwo   // the main and second variants: the ring must hold exactly two room ids
    | TwoSmallest  // the first variant: the two smallest room ids on the dilation, when there are two

  /** The pixels whose room ids a component looks at under `rule`. */
  function Around(lab: array2<int>, l: int, rule: Rule): set<Pos>
    reads lab
  {
    match rule
    case ExactlyTwo => Ring(lab, l)
    case TwoSmallest => Halo(lab, l)
  }

  /** The positive room ids on a set of pixels. */
  function RoomIds(region: array2<int>, s: set<Pos>): (ids: set<int>)
    reads region
    ensures forall x :: x in ids <==> x > 0 && exists p :: p in s && Inside(region, p) && Get(region, p) == x
  {
    set p | p in s && Inside(region, p) && Get(region, p) > 0 :: Get(region, p)
  }

  /** A set of two integers is its least element and one other that is larger. */
  lemma TwoIds(ids: set<int>)
    requires |ids| == 2
    ensures ids - {Least(ids)} != {}
    ensures ids == {Least(ids), Least(ids - {Least(ids)})}
    ensures Least(ids) < Least(ids - {Least(ids)})
  {
    var a := Least(ids);
    var rest := ids - {a};
    assert ids * {a} == {a};
    assert |rest| == 1;
    SomeInt(rest);
    var b :| b in rest;
    Single(rest, b);
    assert ids == rest + {a};
  }

  /** The connection `rule` makes of a component with pixels `comp` that
      sees the positive room ids `ids`. */
  function Decide(comp: set<Pos>, ids: set<int>, kind: Kind, rule: Rule): Option<Conn>
  {
    match rule
    case ExactlyTwo =>
      if |comp| == 0 then None
      else if |ids| == 2 then
        TwoIds(ids);
        Some(Conn(kind, Least(ids), Least(ids - {Least(ids)}), |comp|))
      else None
    case TwoSmallest =>
      if |ids| < 2 then None
      else
        SecondExists(ids);
        Some(Conn(kind, Least(ids), Least(ids - {Least(ids)}), |comp|))
  }

  /** A set of at least two integers still has an element once its least is removed. */
  lemma SecondExists(ids: set<int>)
    requires |ids| >= 2
    ensures ids - {Least(ids)} != {}
  {
    assert ids * {Least(ids)} == {Least(ids)};
    assert |ids - {Least(ids)}| == |ids| - 1;
  }

  /** The ring rule accepts exactly the non-empty components with two ids
      on the ring, and then links those two ids, smaller first, with the
      component's size as area. */
  lemma ExactlyTwoFacts(comp: set<Pos>, ids: set<int>, kind: Kind)
    ensures Decide(comp, ids, kind, ExactlyTwo).Some? <==> |comp| > 0 && |ids| == 2
    ensures Decide(comp, ids, kind, ExactlyTwo).Some? ==>
      var c := Decide(comp, ids, kind, ExactlyTwo).value;
      c.kind == kind && c.area == |comp| && ids == {c.a, c.b} && c.a < c.b
  {
    if |comp| > 0 && |ids| == 2 {
      TwoIds(ids);
    }
  }

  /** The first variant's rule accepts exactly the components that see at
      least two ids, and then links the smallest and the second smallest,
      with the component's size as area. */
  lemma TwoSmallestFacts(comp: set<Pos>, ids: set<int>, kind: Kind)
    ensures Decide(comp, ids, kind, TwoSmallest).Some? <==> |ids| >= 2
    ensures Decide(comp, ids, kind, TwoSmallest).Some? ==>
      var c := Decide(comp, ids, kind, TwoSmallest).value;
      && c.kind == kind && c.area == |comp| && c.a in ids && c.b in ids && c.a < c.b
      && forall x :: x in ids && x != c.a ==> c.b <= x
  {
    if |ids| >= 2 {
      SecondExists(ids);
      var a := Least(ids);
      forall x | x in ids && x != a
        ensures Least(ids - {a}) <= x
      {
        assert x in ids - {a};
      }
    }
  }

  /** The connection recorded for component `l` under `rule`. */
  function OpeningConn(region: array2<int>, lab: array2<int>, l: int, kind: Kind, rule: Rule): Option<Conn>
    reads region, lab
  {
    Decide(Cells(lab, l), RoomIds(region, Around(lab, l, rule)), kind, rule)
  }

  /** The accepted connections of a list of candidates, in order. */
  function Somes(os: seq<Option<Conn>>): (cs: seq<Conn>)
    ensures |cs| <= |os|
  {
    if os == [] then []
    else Somes(os[..|os| - 1]) + (match os[|os| - 1] case Some(c) => [c] case None => [])
  }

  lemma SomesSnoc(os: seq<Option<Conn>>, o: Option<Conn>)
    ensures Somes(os + [o]) == Somes(os) + (match o case Some(c) => [c] case None => [])
  {
    assert (os + [o])[..|os|] == os;
  }

  /** Every accepted connection comes from some candidate, and every candidate that is there is accepted. */
  lemma {:induction false} SomesExact(os: seq<Option<Conn>>)
    ensures forall c :: c in Somes(os) <==> exists i :: 0 <= i < |os| && os[i] == Some(c)
  {
    if os != [] {
      var init := os[..|os| - 1];
      SomesExact(init);
      forall c | exists i :: 0 <= i < |os| && os[i] == Some(c)
        ensures c in Somes(os)
      {
        var i :| 0 <= i < |os| && os[i] == Some(c);
        if i < |init| {
          assert init[i] == os[i];
        }
      }
      forall c | c in Somes(os)
        ensures exists i :: 0 <= i < |os| && os[i] == Some(c)
      {
        if c in Somes(init) {
          var i :| 0 <= i < |init| && init[i] == Some(c);
          assert os[i] == Some(c);
        }
      }
    }
  }

  /** A component whose dilation touches a room is not empty. */
  lemma HaloSeesComponent(region: array2<int>, lab: array2<int>, l: int)
    requires RoomIds(region, Halo(lab, l)) != {}
    ensures |Cells(lab, l)| >= 1
  {
    SomeInt(RoomIds(region, Halo(lab, l)));
    var x :| x in RoomIds(region, Halo(lab, l));
    var p :| p in Halo(lab, l) && Inside(region, p) && Get(region, p) == x;
    NextToExists(lab, p, l);
    var q := if Get(lab, p) == l then p else
      var d :| Inside(lab, Step(p, d)) && Get(lab, Step(p, d)) == l; Step(p, d);
    assert q in Cells(lab, l);
    assert {q} <= Cells(lab, l);
  }

  /** Whatever a component records links two distinct positive room ids,
      smaller first, with a positive extent. */
  lemma OpeningConnValid(region: array2<int>, lab: array2<int>, l: int, kind: Kind, rule: Rule)
    ensures OpeningConn(region, lab, l, kind, rule).Some? ==>
      var c := OpeningConn(region, lab, l, kind, rule).value;
      ValidConn(c) && c.kind == kind && 0 < c.a < c.b
  {
    var comp, ids := Cells(lab, l), RoomIds(region, Around(lab, l, rule));
    match rule
    case ExactlyTwo =>
      ExactlyTwoFacts(comp, ids, kind);
    case TwoSmallest =>
      TwoSmallestFacts(comp, ids, kind);
      if |ids| >= 2 {
        HaloSeesComponent(region, lab, l);
      }
  }

  /** The candidates of components 1..k, in label order. */
  function Candidates(region: array2<int>, lab: array2<int>, k: nat, kind: Kind, rule: Rule): (os: seq<Option<Conn>>)
    reads region, lab
  {
    if k == 0 then [] else Candidates(region, lab, k - 1, kind, rule) + [OpeningConn(region, lab, k, kind, rule)]
  }

  lemma {:induction false} CandidatesAt(region: array2<int>, lab: array2<int>, k: nat, kind: Kind, rule: Rule)
    ensures |Candidates(region, lab, k, kind, rule)| == k
    ensures forall i :: 0 <= i < k ==> Candidates(region, lab, k, kind, rule)[i] == OpeningConn(region, lab, i + 1, kind, rule)
  {
    if k > 0 {
      var os := Candidates(region, lab, k - 1, kind, rule);
      CandidatesAt(region, lab, k - 1, kind, rule);
      var all := Candidates(region, lab, k, kind, rule);
      assert all == os + [OpeningConn(region, lab, k, kind, rule)];
      forall i | 0 <= i < k
        ensures all[i] == OpeningConn(region, lab, i + 1, kind, rule)
      {
        if i < k - 1 {
          assert all[i] == os[i];
        }
      }
    }
  }

  /** One more component adds its accepted connection, if any, at the end of the log. */
  lemma CandidatesStep(region: array2<int>, lab: array2<int>, k: nat, kind: Kind, rule: Rule)
    requires k >= 1
    ensures Somes(Candidates(region, lab, k, kind, rule)) ==
      Somes(Candidates(region, lab, k - 1, kind, rule)) + (match OpeningConn(region, lab, k, kind, rule) case Some(c) => [c] case None => [])
  {
    var os := Candidates(region, lab, k - 1, kind, rule);
    var o := OpeningConn(region, lab, k, kind, rule);
    assert Candidates(region, lab, k, kind, rule) == os + [o];
    SomesSnoc(os, o);
  }

  /** What an opening pass records: exactly the connections of the
      components its rule accepts, each a valid connection between two
      positive ids, smaller first. */
  lemma PassLogFacts(region: array2<int>, lab: array2<int>, k: nat, kind: Kind, rule: Rule)
    ensures forall c :: c in Somes(Candidates(region, lab, k, kind, rule)) <==>
      exists l :: 1 <= l <= k && OpeningConn(region, lab, l, kind, rule) == Some(c)
    ensures forall c :: c in Somes(Candidates(region, lab, k, kind, rule)) ==> ValidConn(c) && c.kind == kind && 0 < c.a < c.b
  {
    PassLogFrom(region, lab, k, kind, rule);
    PassLogTo(region, lab, k, kind, rule);
  }

  /** Every recorded connection is a valid one some component gives. */
  lemma PassLogFrom(region: array2<int>, lab: array2<int>, k: nat, kind: Kind, rule: Rule)
    ensures forall c :: c in Somes(Candidates(region, lab, k, kind, rule)) ==>
      && (exists l :: 1 <= l <= k && OpeningConn(region, lab, l, kind, rule) == Some(c))
      && ValidConn(c) && c.kind == kind && 0 < c.a < c.b
  {
    var os := Candidates(region, lab, k, kind, rule);
    CandidatesAt(region, lab, k, kind, rule);
    SomesExact(os);
    forall c | c in Somes(os)
      ensures exists l :: 1 <= l <= k && OpeningConn(region, lab, l, kind, rule) == Some(c)
      ensures ValidConn(c) && c.kind == kind && 0 < c.a < c.b
    {
      var i :| 0 <= i < |os| && os[i] == Some(c);
      assert OpeningConn(region, lab, i + 1, kind, rule) == Some(c);
      OpeningConnValid(region, lab, i + 1, kind, rule);
    }
  }

  /** Every connection a component gives is recorded. */
  lemma PassLogTo(region: array2<int>, lab: array2<int>, k: nat, kind: Kind, rule: Rule)
    ensures forall c :: (exists l :: 1 <= l <= k && OpeningConn(region, lab, l, kind, rule) == Some(c)) ==>
      c in Somes(Candidates(region, lab, k, kind, rule))
  {
    var os := Candidates(region, lab, k, kind, rule);
    CandidatesAt(region, lab, k, kind, rule);
    SomesExact(os);
    forall c | exists l :: 1 <= l <= k && OpeningConn(region, lab, l, kind, rule) == Some(c)
      ensures c in Somes(os)
    {
      var l :| 1 <= l <= k && OpeningConn(region, lab, l, kind, rule) == Some(c);
      assert os[l - 1] == Some(c);
    }
  }

  /** One opening pass for icon value `val`: label the components of the
      icon pixels holding `val`, then record each component the rule accepts,
      in label order. */
  method OpeningPass(region: array2<int>, icon: array2<int>, val: int, kind: Kind, rule: Rule, edges: EdgeMap)
    returns (edges': EdgeMap, ghost L: IconLabels, ghost log: seq<Conn>)
    ensures ComponentsOf(icon, val, L)
    ensures SameShape(L.lab, icon)
    ensures forall p :: Inside(L.lab, p) ==> (Get(L.lab, p) != 0 <==> Get(icon, p) == val)
    ensures forall p :: Inside(L.lab, p) ==> 0 <= Get(L.lab, p) <= L.n
    ensures log == Somes(Candidates(region, L.lab, L.n, kind, rule))
    ensures edges' == Replay(edges, log)
  {
    var labels, count;
    labels, count, L := IconComponents(icon, val);
    edges', log := RecordAll(region, labels, count, kind, rule, edges);
  }

  /** The loop over components 1 to `n`: each accepted one is recorded, in label order. */
  method RecordAll(region: array2<int>, lab: array2<int>, n: nat, kind: Kind, rule: Rule, edges: EdgeMap)
    returns (edges': EdgeMap, ghost log: seq<Conn>)
    ensures log == Somes(Candidates(region, lab, n, kind, rule))
    ensures edges' == Replay(edges, log)
  {
    edges', log := edges, [];
    var done := 0;
    while done < n
      invariant 0 <= done <= n
      invariant log == Somes(Candidates(region, lab, done, kind, rule))
      invariant edges' == Replay(edges, log)
    {
      edges', log := OpeningRecord(region, lab, done + 1, kind, rule, edges, edges', log);
      done := done + 1;
    }
  }

  /** Component `l` of a pass: its connection, if the rule accepts it, is
      added to the map and to the log. */
  method OpeningRecord(region: array2<int>, lab: array2<int>, l: nat, kind: Kind, rule: Rule,
                       edges0: EdgeMap, edges: EdgeMap, ghost log: seq<Conn>)
    returns (edges': EdgeMap, ghost log': seq<Conn>)
    requires l >= 1
    requires log == Somes(Candidates(region, lab, l - 1, kind, rule))
    requires edges == Replay(edges0, log)
    ensures log' == Somes(Candidates(region, lab, l, kind, rule))
    ensures edges' == Replay(edges0, log')
  {
    var o := OpeningStep(region, lab, l, kind, rule);
    CandidatesStep(region, lab, l, kind, rule);
    edges', log' := edges, log;
    if o.Some? {
      ReplayAppend(edges0, log, o.value);
      edges' := Add(edges, o.value);
      log' := log + [o.value];
    }
  }

  /** The loop body for one component.  Under the ring rule: skip an empty
      component, record it when its ring touches exactly two rooms.  Under
      the first variant's rule: skip it when its dilation touches fewer
      than two rooms, otherwise link the two smallest. */
  method OpeningStep(region: array2<int>, lab: array2<int>, l: int, kind: Kind, rule: Rule) returns (o: Option<Conn>)
    ensures o == OpeningConn(region, lab, l, kind, rule)
  {
    var comp := Cells(lab, l);
    if rule == ExactlyTwo {
      if |comp| == 0 {
        return None;
      }
      var ids := RoomIds(region, Ring(lab, l));
      if |ids| == 2 {
        TwoIds(ids);
        var a := Least(ids);
        var b := Least(ids - {a});
        o := Some(Conn(kind, a, b, |comp|));
      } else {
        o := None;
      }
    } else {
      var ids := RoomIds(region, Halo(lab, l));
      if |ids| < 2 {
        return None;
      }
      SecondExists(ids);
      var a := Least(ids);
      var b := Least(ids - {a});
      o := Some(Conn(kind, a, b, |comp|));
    }
  }
}
