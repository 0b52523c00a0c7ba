/** Labelling of the 4-connected components of a boolean mask by an
    explicit-stack flood fill in row-major seed order.

    This is the fill loop of `extract_rooms`, and it is also the model of
    the connected-component labelling of door and window pixels: both give
    labels 1, 2, ... to components in the order in which a row-by-row scan
    first meets them. */
module Components {
  import opened Grid

  /** The neighbour order of the fill, `[(-1, 0), (1, 0), (0, -1), (0, 1)]`. */
  function FillOrder(k: int): Dir
    requires 0 <= k < 4
  {
    if k == 0 then North else if k == 1 then South else if k == 2 then West else East
  }

  /** A route from `from` to `to`: 4-adjacent steps through in-mask pixels. */
  ghost predicate IsRoute(mask: array2<bool>, r: seq<Pos>, from: Pos, to: Pos)
    reads mask
  {
    && |r| >= 1 && r[0] == from && r[|r| - 1] == to
    && (forall i :: 0 <= i < |r| ==> Inside(mask, r[i]) && Get(mask, r[i]))
    && (forall i :: 0 <= i < |r| - 1 ==> Adjacent(r[i], r[i + 1]))
  }

  /** A route to `p` extends by one step to an in-mask neighbour `q` of `p`. */
  lemma RouteExtend(mask: array2<bool>, r: seq<Pos>, from: Pos, p: Pos, q: Pos)
    requires IsRoute(mask, r, from, p)
    requires Inside(mask, q) && Get(mask, q) && Adjacent(p, q)
    ensures IsRoute(mask, r + [q], from, q)
  {
    assert forall i :: 0 <= i < |r| ==> (r + [q])[i] == r[i];
  }

  /** Every labelled pixel that is not listed in `open` gives its own label
      to each of its in-mask neighbours. */
  ghost predicate ClosedExcept(mask: array2<bool>, lab: array2<int>, open: seq<Pos>)
    reads mask, lab
    requires SameShape(mask, lab)
  {
    forall p, d :: Inside(lab, p) && Inside(lab, Step(p, d)) && Get(lab, p) != 0 && p !in open && Get(mask, Step(p, d))
      ==> Get(lab, Step(p, d)) == Get(lab, p)
  }

  /** `lab` labels some of the components of `mask` with 1..n: out-of-mask
      pixels carry 0, neighbouring in-mask pixels share a label, label k is
      grown from `seeds[k - 1]`, the row-major first pixel of its component,
      and `routes` holds, for every labelled pixel, a route from its seed. */
  ghost predicate PartialLabelling(mask: array2<bool>, lab: array2<int>, n: nat, seeds: seq<Pos>, routes: map<Pos, seq<Pos>>)
    reads mask, lab
  {
    && SameShape(mask, lab)
    && (forall p :: Inside(lab, p) ==> 0 <= Get(lab, p) <= n)
    && (forall p :: Inside(lab, p) && !Get(mask, p) ==> Get(lab, p) == 0)
    && ClosedExcept(mask, lab, [])
    && |seeds| == n
    && (forall k :: 0 <= k < n ==> Inside(lab, seeds[k]) && Get(lab, seeds[k]) == k + 1)
    && (forall i, j :: 0 <= i < j < n ==> Before(seeds[i], seeds[j]))
    && (forall p, k :: Inside(lab, p) && 0 <= k < n && Get(lab, p) == k + 1 ==>
          !Before(p, seeds[k]) && p in routes && IsRoute(mask, routes[p], seeds[k], p))
  }

  /** `lab` labels all the components of `mask` with 1..n. */
  ghost predicate IsLabelling(mask: array2<bool>, lab: array2<int>, n: nat, seeds: seq<Pos>, routes: map<Pos, seq<Pos>>)
    reads mask, lab
  {
    && PartialLabelling(mask, lab, n, seeds, routes)
    && (forall p :: Inside(lab, p) && Get(mask, p) ==> Get(lab, p) != 0)
  }

  /** What the fill keeps true while it runs: `before` is the labelling it
      started from; only pixels unlabelled there take the new label `cur`;
      the stack holds pixels labelled `cur`; `pushed` lists every pixel
      pushed so far, each once; and each new pixel has a route from the seed. */
  ghost predicate FillInv(mask: array2<bool>, lab: array2<int>, before: map<Pos, int>, seed: Pos, cur: int,
                          stack: seq<Pos>, pushed: seq<Pos>, routes: map<Pos, seq<Pos>>, unlabelled: set<Pos>)
    reads mask, lab
  {
    && SameShape(mask, lab) && Inside(lab, seed) && Get(lab, seed) == cur && cur >= 1
    && (forall p :: p in before ==> 0 <= before[p] < cur)
    && (forall p :: Inside(lab, p) ==> p in before && (Get(lab, p) == before[p] || (before[p] == 0 && Get(lab, p) == cur)))
    && (forall p :: Inside(lab, p) && !Get(mask, p) ==> Get(lab, p) == 0)
    && (forall i :: 0 <= i < |stack| ==> Inside(lab, stack[i]) && Get(lab, stack[i]) == cur)
    && NoDuplicates(pushed)
    && (forall p :: p in pushed <==> Inside(lab, p) && Get(lab, p) == cur)
    && (forall p :: p in routes ==> Inside(lab, p) && Get(lab, p) == cur)
    && (forall p :: Inside(lab, p) && Get(lab, p) == cur ==> p in routes && IsRoute(mask, routes[p], seed, p))
    && (forall p :: p in unlabelled <==> Inside(lab, p) && Get(lab, p) == 0)
  }

  /** A pixel that is off the grid, outside the mask or labelled `cur`. */
  ghost predicate Settled(mask: array2<bool>, lab: array2<int>, q: Pos, cur: int)
    reads mask, lab
    requires SameShape(mask, lab)
  {
    Inside(lab, q) && Get(mask, q) ==> Get(lab, q) == cur
  }

  /** One neighbour `Step(p, d)` of a popped pixel `p`: labelled and pushed
      when it is in the grid, in the mask and still unlabelled. */
  method Visit(mask: array2<bool>, lab: array2<int>, p: Pos, d: Dir, cur: int, stack: seq<Pos>,
               ghost before: map<Pos, int>, ghost seed: Pos, ghost pushed: seq<Pos>,
               ghost routes: map<Pos, seq<Pos>>, ghost unlabelled: set<Pos>)
    returns (stack': seq<Pos>, ghost pushed': seq<Pos>, ghost routes': map<Pos, seq<Pos>>, ghost unlabelled': set<Pos>)
    requires FillInv(mask, lab, before, seed, cur, stack, pushed, routes, unlabelled)
    requires Inside(lab, p) && Get(lab, p) == cur
    requires ClosedExcept(mask, lab, stack + [p])
    modifies lab
    ensures FillInv(mask, lab, before, seed, cur, stack', pushed', routes', unlabelled')
    ensures ClosedExcept(mask, lab, stack' + [p])
    ensures Settled(mask, lab, Step(p, d), cur)
    ensures forall q :: Inside(lab, q) && old(Get(lab, q)) != 0 ==> Get(lab, q) == old(Get(lab, q))
    ensures |unlabelled'| <= |unlabelled| && (|unlabelled'| == |unlabelled| ==> stack' == stack)
  {
    stack', pushed', routes', unlabelled' := stack, pushed, routes, unlabelled;
    var q := Step(p, d);
    if 0 <= q.0 < lab.Length0 && 0 <= q.1 < lab.Length1 {
      if mask[q.0, q.1] && lab[q.0, q.1] == 0 {
        stack', pushed', routes', unlabelled' := Claim(mask, lab, p, d, cur, stack, before, seed, pushed, routes, unlabelled);
      } else if mask[q.0, q.1] {
        StepIsAdjacent(p, d);
      }
    }
  }

  /** The labelling branch of `Visit`: the unlabelled in-mask neighbour
      `Step(p, d)` takes label `cur`, is pushed, and its route extends the route of `p`. */
  method Claim(mask: array2<bool>, lab: array2<int>, p: Pos, d: Dir, cur: int, stack: seq<Pos>,
               ghost before: map<Pos, int>, ghost seed: Pos, ghost pushed: seq<Pos>,
               ghost routes: map<Pos, seq<Pos>>, ghost unlabelled: set<Pos>)
    returns (stack': seq<Pos>, ghost pushed': seq<Pos>, ghost routes': map<Pos, seq<Pos>>, ghost unlabelled': set<Pos>)
    requires FillInv(mask, lab, before, seed, cur, stack, pushed, routes, unlabelled)
    requires Inside(lab, p) && Get(lab, p) == cur
    requires ClosedExcept(mask, lab, stack + [p])
    requires Inside(lab, Step(p, d)) && Get(mask, Step(p, d)) && Get(lab, Step(p, d)) == 0
    modifies lab
    ensures FillInv(mask, lab, before, seed, cur, stack', pushed', routes', unlabelled')
    ensures ClosedExcept(mask, lab, stack' + [p])
    ensures Get(lab, Step(p, d)) == cur
    ensures forall q :: Inside(lab, q) && q != Step(p, d) ==> Get(lab, q) == old(Get(lab, q))
    ensures |unlabelled'| < |unlabelled|
  {
    var q := Step(p, d);
    StepIsAdjacent(p, d);
    assert q !in pushed && q in unlabelled;
    NoDuplicatesConcat(pushed, [q]);
    RouteExtend(mask, routes[p], seed, p, q);
    lab[q.0, q.1] := cur;
    stack' := stack + [q];
    pushed' := pushed + [q];
    routes' := routes[q := routes[p] + [q]];
    unlabelled' := unlabelled - {q};
  }

  /** The body of the fill loop for a popped pixel `p`: its four neighbours
      in fill order; afterwards `p` is closed. */
  method Expand(mask: array2<bool>, lab: array2<int>, p: Pos, cur: int, stack: seq<Pos>,
                ghost before: map<Pos, int>, ghost seed: Pos, ghost pushed: seq<Pos>,
                ghost routes: map<Pos, seq<Pos>>, ghost unlabelled: set<Pos>)
    returns (stack': seq<Pos>, ghost pushed': seq<Pos>, ghost routes': map<Pos, seq<Pos>>, ghost unlabelled': set<Pos>)
    requires FillInv(mask, lab, before, seed, cur, stack, pushed, routes, unlabelled)
    requires Inside(lab, p) && Get(lab, p) == cur
    requires ClosedExcept(mask, lab, stack + [p])
    modifies lab
    ensures FillInv(mask, lab, before, seed, cur, stack', pushed', routes', unlabelled')
    ensures ClosedExcept(mask, lab, stack')
    ensures |unlabelled'| <= |unlabelled| && (|unlabelled'| == |unlabelled| ==> stack' == stack)
  {
    stack', pushed', routes', unlabelled' := stack, pushed, routes, unlabelled;
    for k := 0 to 4
      invariant FillInv(mask, lab, before, seed, cur, stack', pushed', routes', unlabelled')
      invariant Get(lab, p) == cur
      invariant ClosedExcept(mask, lab, stack' + [p])
      invariant k > 0 ==> Settled(mask, lab, Step(p, North), cur)
      invariant k > 1 ==> Settled(mask, lab, Step(p, South), cur)
      invariant k > 2 ==> Settled(mask, lab, Step(p, West), cur)
      invariant k > 3 ==> Settled(mask, lab, Step(p, East), cur)
      invariant |unlabelled'| <= |unlabelled| && (|unlabelled'| == |unlabelled| ==> stack' == stack)
    {
      stack', pushed', routes', unlabelled' := Visit(mask, lab, p, FillOrder(k), cur, stack', before, seed, pushed', routes', unlabelled');
    }
    CloseAt(mask, lab, stack', p, cur);
  }

  /** A pixel whose four neighbours are settled can leave the open list. */
  lemma CloseAt(mask: array2<bool>, lab: array2<int>, open: seq<Pos>, p: Pos, cur: int)
    requires SameShape(mask, lab) && Inside(lab, p) && Get(lab, p) == cur
    requires ClosedExcept(mask, lab, open + [p])
    requires Settled(mask, lab, Step(p, North), cur) && Settled(mask, lab, Step(p, South), cur)
    requires Settled(mask, lab, Step(p, West), cur) && Settled(mask, lab, Step(p, East), cur)
    ensures ClosedExcept(mask, lab, open)
  {
    forall q, d | Inside(lab, q) && Inside(lab, Step(q, d)) && Get(lab, q) != 0 && q !in open && Get(mask, Step(q, d))
      ensures Get(lab, Step(q, d)) == Get(lab, q)
    {
      if q !in open + [p] {
      } else {
        assert q == p;
        assert Settled(mask, lab, Step(p, d), cur);
      }
    }
  }

  /** The start of a fill: the seed takes the new label and is the only pixel on the stack. */
  method Seed(mask: array2<bool>, lab: array2<int>, seed: Pos, cur: int, ghost before: map<Pos, int>)
    returns (stack: seq<Pos>, ghost pushed: seq<Pos>,
             ghost routes: map<Pos, seq<Pos>>, ghost unlabelled: set<Pos>)
    requires SameShape(mask, lab) && Inside(lab, seed) && before == Snapshot(lab)
    requires Get(mask, seed) && Get(lab, seed) == 0 && cur >= 1
    requires forall p :: Inside(lab, p) ==> 0 <= Get(lab, p) < cur
    requires forall p :: Inside(lab, p) && !Get(mask, p) ==> Get(lab, p) == 0
    requires ClosedExcept(mask, lab, [])
    modifies lab
    ensures FillInv(mask, lab, before, seed, cur, stack, pushed, routes, unlabelled)
    ensures ClosedExcept(mask, lab, stack)
  {
    lab[seed.0, seed.1] := cur;
    stack := [seed];
    pushed := [seed];
    routes := map[seed := [seed]];
    unlabelled := set p | p in AllPixels(lab.Length0, lab.Length1) && Get(lab, p) == 0;
  }

  /** The flood fill from one seed: the `while stack` loop of `extract_rooms`.
      Only unlabelled in-mask pixels are labelled, each is pushed once, and
      afterwards the labelled pixels are closed under in-mask neighbours again. */
  method Fill(mask: array2<bool>, lab: array2<int>, seed: Pos, cur: int, ghost before: map<Pos, int>)
    returns (ghost pushed: seq<Pos>, ghost routes: map<Pos, seq<Pos>>)
    requires SameShape(mask, lab) && Inside(lab, seed) && before == Snapshot(lab)
    requires Get(mask, seed) && Get(lab, seed) == 0 && cur >= 1
    requires forall p :: Inside(lab, p) ==> 0 <= Get(lab, p) < cur
    requires forall p :: Inside(lab, p) && !Get(mask, p) ==> Get(lab, p) == 0
    requires ClosedExcept(mask, lab, [])
    modifies lab
    ensures forall p :: Inside(lab, p) ==>
      p in before && (Get(lab, p) == before[p] || (before[p] == 0 && Get(lab, p) == cur))
    ensures Get(lab, seed) == cur
    ensures forall p :: Inside(lab, p) && !Get(mask, p) ==> Get(lab, p) == 0
    ensures ClosedExcept(mask, lab, [])
    ensures NoDuplicates(pushed)
    ensures forall p :: p in pushed <==> Inside(lab, p) && Get(lab, p) == cur
    ensures forall p :: p in routes ==> Inside(lab, p) && Get(lab, p) == cur
    ensures forall p :: Inside(lab, p) && Get(lab, p) == cur ==> p in routes && IsRoute(mask, routes[p], seed, p)
  {
    var stack;
    ghost var unlabelled;
    stack, pushed, routes, unlabelled := Seed(mask, lab, seed, cur, before);
    while stack != []
      invariant FillInv(mask, lab, before, seed, cur, stack, pushed, routes, unlabelled)
      invariant ClosedExcept(mask, lab, stack)
      decreases |unlabelled|, |stack|
    {
      ghost var stack0 := stack;
      var p := stack[|stack| - 1];
      stack := stack[..|stack| - 1];
      PopSplit(stack0);
      stack, pushed, routes, unlabelled := Expand(mask, lab, p, cur, stack, before, seed, pushed, routes, unlabelled);
    }
  }

  lemma PopSplit(s: seq<Pos>)
    requires |s| > 0
    ensures s[..|s| - 1] + [s[|s| - 1]] == s
  {
  }

  /** Component labelling by a row-by-row scan: each in-mask pixel that is
      still unlabelled when the scan reaches it seeds a fill with the next
      label.  Every in-mask pixel is pushed exactly once over the whole scan. */
  method Label(mask: array2<bool>)
    returns (lab: array2<int>, n: nat, ghost seeds: seq<Pos>, ghost pushed: seq<Pos>, ghost routes: map<Pos, seq<Pos>>)
    ensures IsLabelling(mask, lab, n, seeds, routes)
    ensures NoDuplicates(pushed)
    ensures forall p :: p in pushed <==> Inside(mask, p) && Get(mask, p)
  {
    var h, w := mask.Length0, mask.Length1;
    lab := new int[h, w]((x, y) => 0);
    n, seeds, pushed, routes := 0, [], [], map[];
    for i := 0 to h
      invariant ScanState(mask, lab, n, seeds, pushed, routes, (i, 0))
    {
      for j := 0 to w
        invariant ScanState(mask, lab, n, seeds, pushed, routes, (i, j))
      {
        n, seeds, pushed, routes := ScanPixel(mask, lab, (i, j), n, seeds, pushed, routes);
      }
      NextRow(mask, lab, n, seeds, pushed, routes, i);
    }
    assert forall p :: Inside(lab, p) ==> Before(p, (h, 0));
  }

  /** The scan has reached `cursor`: every in-mask pixel before it is
      labelled, every seed lies before it, and `pushed` lists the labelled
      pixels once each. */
  ghost predicate ScanState(mask: array2<bool>, lab: array2<int>, n: nat, seeds: seq<Pos>, pushed: seq<Pos>,
                            routes: map<Pos, seq<Pos>>, cursor: Pos)
    reads mask, lab
  {
    && PartialLabelling(mask, lab, n, seeds, routes)
    && (forall p :: Inside(lab, p) && Before(p, cursor) && Get(mask, p) ==> Get(lab, p) != 0)
    && (forall k :: 0 <= k < n ==> Before(seeds[k], cursor))
    && NoDuplicates(pushed)
    && (forall p :: p in pushed <==> Inside(lab, p) && Get(lab, p) != 0)
  }

  /** The end of row `i` is the start of row `i + 1`. */
  lemma NextRow(mask: array2<bool>, lab: array2<int>, n: nat, seeds: seq<Pos>, pushed: seq<Pos>,
                routes: map<Pos, seq<Pos>>, i: int)
    requires ScanState(mask, lab, n, seeds, pushed, routes, (i, lab.Length1))
    ensures ScanState(mask, lab, n, seeds, pushed, routes, (i + 1, 0))
  {
    assert forall p :: Inside(lab, p) && Before(p, (i + 1, 0)) ==> Before(p, (i, lab.Length1));
  }

  /** One pixel of the scan: an in-mask pixel not yet labelled starts a new component. */
  method ScanPixel(mask: array2<bool>, lab: array2<int>, p: Pos, n: nat, ghost seeds: seq<Pos>,
                   ghost pushed: seq<Pos>, ghost routes: map<Pos, seq<Pos>>)
    returns (n': nat, ghost seeds': seq<Pos>, ghost pushed': seq<Pos>, ghost routes': map<Pos, seq<Pos>>)
    requires Inside(lab, p) && ScanState(mask, lab, n, seeds, pushed, routes, p)
    modifies lab
    ensures ScanState(mask, lab, n', seeds', pushed', routes', (p.0, p.1 + 1))
  {
    if mask[p.0, p.1] && lab[p.0, p.1] == 0 {
      n', seeds', pushed', routes' := Grow(mask, lab, p, n, seeds, pushed, routes);
    } else {
      n', seeds', pushed', routes' := n, seeds, pushed, routes;
    }
  }

  /** The labels of `lab`, as a map from each pixel of the grid. */
  ghost function Snapshot(lab: array2<int>): (m: map<Pos, int>)
    reads lab
    ensures forall p :: p in m <==> Inside(lab, p)
    ensures forall p :: Inside(lab, p) ==> m[p] == Get(lab, p)
  {
    map p | p in AllPixels(lab.Length0, lab.Length1) :: Get(lab, p)
  }

  /** The scan state before a new fill from `seed`, read off the snapshot `before` of the labels. */
  ghost predicate Prior(mask: array2<bool>, before: map<Pos, int>, n: nat, seeds: seq<Pos>, seed: Pos,
                        pushed: seq<Pos>, routes: map<Pos, seq<Pos>>)
    reads mask
  {
    && |seeds| == n
    && (forall p :: p in before ==> 0 <= before[p] <= n)
    && (forall k :: 0 <= k < n ==> seeds[k] in before && before[seeds[k]] == k + 1)
    && (forall i, j :: 0 <= i < j < n ==> Before(seeds[i], seeds[j]))
    && (forall k :: 0 <= k < n ==> Before(seeds[k], seed))
    && (forall p, k :: p in before && 0 <= k < n && before[p] == k + 1 ==>
          !Before(p, seeds[k]) && p in routes && IsRoute(mask, routes[p], seeds[k], p))
    && (forall p :: p in before && Before(p, seed) && Inside(mask, p) && Get(mask, p) ==> before[p] != 0)
    && NoDuplicates(pushed)
    && (forall p :: p in pushed <==> p in before && before[p] != 0)
  }

  /** The requirements of `Grow`, in terms of the snapshot of the labels they speak of. */
  lemma PriorOf(mask: array2<bool>, lab: array2<int>, seed: Pos, n: nat, seeds: seq<Pos>,
                pushed: seq<Pos>, routes: map<Pos, seq<Pos>>)
    requires PartialLabelling(mask, lab, n, seeds, routes)
    requires forall p :: Inside(lab, p) && Before(p, seed) && Get(mask, p) ==> Get(lab, p) != 0
    requires forall k :: 0 <= k < n ==> Before(seeds[k], seed)
    requires NoDuplicates(pushed)
    requires forall p :: p in pushed <==> Inside(lab, p) && Get(lab, p) != 0
    ensures Prior(mask, Snapshot(lab), n, seeds, seed, pushed, routes)
  {
  }

  /** After the fill from `seed` with label `n + 1`, the labelling covers one more component. */
  lemma GrowFacts(mask: array2<bool>, lab: array2<int>, before: map<Pos, int>, seed: Pos, n: nat, seeds: seq<Pos>,
                  pushed: seq<Pos>, routes: map<Pos, seq<Pos>>, now: seq<Pos>, routesNow: map<Pos, seq<Pos>>)
    requires SameShape(mask, lab) && Inside(lab, seed) && Get(mask, seed)
    requires Prior(mask, before, n, seeds, seed, pushed, routes)
    requires forall p :: p in before <==> Inside(lab, p)
    requires forall p :: Inside(lab, p) ==> Get(lab, p) == before[p] || (before[p] == 0 && Get(lab, p) == n + 1)
    requires Get(lab, seed) == n + 1
    requires forall p :: Inside(lab, p) && !Get(mask, p) ==> Get(lab, p) == 0
    requires ClosedExcept(mask, lab, [])
    requires NoDuplicates(now)
    requires forall p :: p in now <==> Inside(lab, p) && Get(lab, p) == n + 1
    requires forall p :: p in routesNow ==> Inside(lab, p) && Get(lab, p) == n + 1
    requires forall p :: Inside(lab, p) && Get(lab, p) == n + 1 ==> p in routesNow && IsRoute(mask, routesNow[p], seed, p)
    ensures PartialLabelling(mask, lab, n + 1, seeds + [seed], routes + routesNow)
    ensures NoDuplicates(pushed + now)
    ensures forall p :: p in pushed + now <==> Inside(lab, p) && Get(lab, p) != 0
  {
    var seeds', routes' := seeds + [seed], routes + routesNow;
    NoDuplicatesConcat(pushed, now);
    forall p, k | Inside(lab, p) && 0 <= k < n + 1 && Get(lab, p) == k + 1
      ensures !Before(p, seeds'[k]) && p in routes' && IsRoute(mask, routes'[p], seeds'[k], p)
    {
      if k < n {
        assert before[p] == k + 1 && seeds'[k] == seeds[k];
        assert p !in routesNow;
      } else {
        assert before[p] == 0 && seeds'[k] == seed;
      }
    }
    forall k | 0 <= k < n + 1
      ensures Inside(lab, seeds'[k]) && Get(lab, seeds'[k]) == k + 1
    {
      if k < n {
        assert seeds'[k] == seeds[k] && before[seeds[k]] == k + 1;
      }
    }
  }

  /** One iteration of the scan that starts a new component at `seed`. */
  method Grow(mask: array2<bool>, lab: array2<int>, seed: Pos, n: nat, ghost seeds: seq<Pos>,
              ghost pushed: seq<Pos>, ghost routes: map<Pos, seq<Pos>>)
    returns (n': nat, ghost seeds': seq<Pos>, ghost pushed': seq<Pos>, ghost routes': map<Pos, seq<Pos>>)
    requires PartialLabelling(mask, lab, n, seeds, routes)
    requires Inside(lab, seed) && Get(mask, seed) && Get(lab, seed) == 0
    requires forall p :: Inside(lab, p) && Before(p, seed) && Get(mask, p) ==> Get(lab, p) != 0
    requires forall k :: 0 <= k < n ==> Before(seeds[k], seed)
    requires NoDuplicates(pushed)
    requires forall p :: p in pushed <==> Inside(lab, p) && Get(lab, p) != 0
    modifies lab
    ensures n' == n + 1 && seeds' == seeds + [seed]
    ensures PartialLabelling(mask, lab, n', seeds', routes')
    ensures forall p :: Inside(lab, p) && old(Get(lab, p)) != 0 ==> Get(lab, p) != 0
    ensures Get(lab, seed) != 0
    ensures NoDuplicates(pushed')
    ensures forall p :: p in pushed' <==> Inside(lab, p) && Get(lab, p) != 0
  {
    ghost var before := Snapshot(lab);
    PriorOf(mask, lab, seed, n, seeds, pushed, routes);
    n' := n + 1;
    var now, routesNow := Fill(mask, lab, seed, n', before);
    GrowFacts(mask, lab, before, seed, n, seeds, pushed, routes, now, routesNow);
    seeds', pushed', routes' := seeds + [seed], pushed + now, routes + routesNow;
  }

  /** Two pixels are connected in `mask` when some route joins them. */
  ghost predicate Connected(mask: array2<bool>, p: Pos, q: Pos)
    reads mask
  {
    exists r :: IsRoute(mask, r, p, q)
  }

  /** Following a route from a labelled pixel never changes the label. */
  lemma {:induction false} RouteKeepsLabel(mask: array2<bool>, lab: array2<int>, r: seq<Pos>, from: Pos, to: Pos)
    requires SameShape(mask, lab) && ClosedExcept(mask, lab, [])
    requires IsRoute(mask, r, from, to) && Get(lab, from) != 0
    ensures Get(lab, to) == Get(lab, from)
    decreases |r|
  {
    if |r| > 1 {
      var prev := r[|r| - 2];
      var init := r[..|r| - 1];
      assert IsRoute(mask, init, from, prev) by {
        assert forall i :: 0 <= i < |init| ==> init[i] == r[i];
      }
      RouteKeepsLabel(mask, lab, init, from, prev);
      assert Adjacent(prev, to);
      var d := DirTo(prev, to);
      assert Get(lab, Step(prev, d)) == Get(lab, prev);
    }
  }

  /** A route read backwards is a route. */
  lemma RouteReverse(mask: array2<bool>, r: seq<Pos>, from: Pos, to: Pos)
    requires IsRoute(mask, r, from, to)
    ensures IsRoute(mask, Reverse(r), to, from)
  {
    var v := Reverse(r);
    forall i | 0 <= i < |v| - 1
      ensures Adjacent(v[i], v[i + 1])
    {
      assert v[i] == r[|r| - 1 - i] && v[i + 1] == r[|r| - 1 - i - 1];
    }
  }

  /** Two routes that meet at `mid` join into one. */
  lemma RouteJoin(mask: array2<bool>, r: seq<Pos>, s: seq<Pos>, from: Pos, mid: Pos, to: Pos)
    requires IsRoute(mask, r, from, mid) && IsRoute(mask, s, mid, to)
    ensures IsRoute(mask, r + s[1..], from, to)
  {
    var t := r + s[1..];
    forall i | 0 <= i < |t| - 1
      ensures Adjacent(t[i], t[i + 1])
    {
      if i < |r| - 1 {
        assert t[i] == r[i] && t[i + 1] == r[i + 1];
      } else {
        assert t[i] == s[i - |r| + 1] && t[i + 1] == s[i - |r| + 2];
      }
    }
    forall i | 0 <= i < |t|
      ensures Inside(mask, t[i]) && Get(mask, t[i])
    {
      if i >= |r| {
        assert t[i] == s[i - |r| + 1];
      }
    }
  }

  /** Each label is exactly one connected component of the mask: a pixel
      carries the label of a labelled pixel `p` if and only if a route
      through the mask joins it to `p`. */
  lemma LabelIsComponent(mask: array2<bool>, lab: array2<int>, n: nat, seeds: seq<Pos>, routes: map<Pos, seq<Pos>>, p: Pos, q: Pos)
    requires IsLabelling(mask, lab, n, seeds, routes)
    requires Inside(lab, p) && Inside(lab, q) && Get(lab, p) != 0
    ensures Get(lab, q) == Get(lab, p) <==> Connected(mask, p, q)
  {
    var k := Get(lab, p) - 1;
    if Get(lab, q) == Get(lab, p) {
      var seed := seeds[k];
      RouteReverse(mask, routes[p], seed, p);
      RouteJoin(mask, Reverse(routes[p]), routes[q], p, seed, q);
      assert IsRoute(mask, Reverse(routes[p]) + routes[q][1..], p, q);
    }
    if Connected(mask, p, q) {
      var r :| IsRoute(mask, r, p, q);
      RouteKeepsLabel(mask, lab, r, p, q);
    }
  }
}
