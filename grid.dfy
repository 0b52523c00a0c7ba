/** Pixel grids shared by room segmentation and adjacency detection.

    A grid is a two-dimensional array indexed (row, column); a position is
    the pair (row, column).  The four axis directions are named after the
    compass, with North the row above. */
module Grid {

  type Pos = (int, int)

  datatype Option<T> = None | Some(value: T)

  datatype Dir = North | South | West | East

  /** The neighbour one pixel away in direction `d`. */
  function Step(p: Pos, d: Dir): Pos
  {
    match d
    case North => (p.0 - 1, p.1)
    case South => (p.0 + 1, p.1)
    case West => (p.0, p.1 - 1)
    case East => (p.0, p.1 + 1)
  }

  /** The pixel `k` steps away from `p` in direction `d`. */
  function Move(p: Pos, d: Dir, k: int): Pos
  {
    match d
    case North => (p.0 - k, p.1)
    case South => (p.0 + k, p.1)
    case West => (p.0, p.1 - k)
    case East => (p.0, p.1 + k)
  }

  function Opposite(d: Dir): Dir
  {
    match d
    case North => South
    case South => North
    case West => East
    case East => West
  }

  /** The row offset and column offset of a direction, as the source writes them. */
  function Offset(d: Dir): (int, int)
  {
    match d
    case North => (-1, 0)
    case South => (1, 0)
    case West => (0, -1)
    case East => (0, 1)
  }

  predicate Vertical(d: Dir)
  {
    d == North || d == South
  }

  /** The neighbour order `[(0, 1), (0, -1), (1, 0), (-1, 0)]` used by the adjacency passes. */
  const ScanOrder: seq<Dir> := [East, West, South, North]

  /** The place of a direction in the scan order. */
  function ScanIndex(d: Dir): (j: nat)
    ensures j < 4 && ScanOrder[j] == d
  {
    match d
    case East => 0
    case West => 1
    case South => 2
    case North => 3
  }

  /** Two pixels are 4-adjacent when they differ by one in exactly one coordinate. */
  predicate Adjacent(p: Pos, q: Pos)
  {
    (p.0 == q.0 && (p.1 + 1 == q.1 || q.1 + 1 == p.1)) ||
    (p.1 == q.1 && (p.0 + 1 == q.0 || q.0 + 1 == p.0))
  }

  /** The direction that leads from `p` to its 4-neighbour `q`. */
  function DirTo(p: Pos, q: Pos): (d: Dir)
    requires Adjacent(p, q)
    ensures Step(p, d) == q
  {
    if q.0 == p.0 - 1 then North else if q.0 == p.0 + 1 then South else if q.1 == p.1 - 1 then West else East
  }

  predicate Inside<T>(a: array2<T>, p: Pos)
  {
    0 <= p.0 < a.Length0 && 0 <= p.1 < a.Length1
  }

  predicate SameShape<T, U>(a: array2<T>, b: array2<U>)
  {
    a.Length0 == b.Length0 && a.Length1 == b.Length1
  }

  function Get<T>(a: array2<T>, p: Pos): T
    reads a
    requires Inside(a, p)
  {
    a[p.0, p.1]
  }

  /** Strict row-major order: the order in which a row-by-row scan meets pixels. */
  predicate Before(p: Pos, q: Pos)
  {
    p.0 < q.0 || (p.0 == q.0 && p.1 < q.1)
  }

  /** Every position of an `h` by `w` grid. */
  function AllPixels(h: int, w: int): (s: set<Pos>)
    ensures forall p :: p in s <==> 0 <= p.0 < h && 0 <= p.1 < w
  {
    set x, y | 0 <= x < h && 0 <= y < w :: (x, y)
  }

  /** The pixels of `a` that hold `v` (`a == v` as a mask). */
  function Cells(a: array2<int>, v: int): (s: set<Pos>)
    reads a
    ensures forall p {:trigger p in s} :: p in s <==> Inside(a, p) && Get(a, p) == v
  {
    set p | p in AllPixels(a.Length0, a.Length1) && Get(a, p) == v
  }

  /** `p` has a 4-neighbour in the grid that holds `v`. */
  predicate NextTo(a: array2<int>, p: Pos, v: int)
    reads a
  {
    (Inside(a, Step(p, North)) && Get(a, Step(p, North)) == v) ||
    (Inside(a, Step(p, South)) && Get(a, Step(p, South)) == v) ||
    (Inside(a, Step(p, West)) && Get(a, Step(p, West)) == v) ||
    (Inside(a, Step(p, East)) && Get(a, Step(p, East)) == v)
  }

  lemma NextToExists(a: array2<int>, p: Pos, v: int)
    ensures NextTo(a, p, v) <==> exists d :: Inside(a, Step(p, d)) && Get(a, Step(p, d)) == v
  {
    if exists d :: Inside(a, Step(p, d)) && Get(a, Step(p, d)) == v {
      var d :| Inside(a, Step(p, d)) && Get(a, Step(p, d)) == v;
      match d
      case North =>
      case South =>
      case West =>
      case East =>
    }
  }

  /** A pixel is at the image edge when one of its four neighbours is off the grid. */
  predicate AtEdge<T>(a: array2<T>, p: Pos)
  {
    !Inside(a, Step(p, North)) || !Inside(a, Step(p, South)) ||
    !Inside(a, Step(p, West)) || !Inside(a, Step(p, East))
  }

  lemma StepIsAdjacent(p: Pos, d: Dir)
    ensures Adjacent(p, Step(p, d)) && Adjacent(Step(p, d), p)
    ensures Step(Step(p, d), Opposite(d)) == p
  {
  }

  function Reverse<T>(s: seq<T>): (r: seq<T>)
    ensures |r| == |s| && forall i :: 0 <= i < |s| ==> r[i] == s[|s| - 1 - i]
  {
    if s == [] then [] else Reverse(s[1..]) + [s[0]]
  }

  predicate NoDuplicates<T(==)>(s: seq<T>)
  {
    forall i, j :: 0 <= i < j < |s| ==> s[i] != s[j]
  }

  lemma NoDuplicatesConcat<T>(a: seq<T>, b: seq<T>)
    requires NoDuplicates(a) && NoDuplicates(b)
    requires forall x :: x in a ==> x !in b
    ensures NoDuplicates(a + b)
  {
    forall i, j | 0 <= i < j < |a + b|
      ensures (a + b)[i] != (a + b)[j]
    {
      if j >= |a| && i < |a| {
        assert (a + b)[i] in a && (a + b)[j] in b;
      }
    }
  }

  /** The positions a list holds (`set(...)` of a list). */
  function Elems(s: seq<Pos>): (e: set<Pos>)
    ensures forall p :: p in e <==> p in s
  {
    set p | p in s
  }

  /** A list without repeats holds as many distinct positions as it is long. */
  lemma {:induction false} ElemsCard(s: seq<Pos>)
    requires NoDuplicates(s)
    ensures |Elems(s)| == |s|
  {
    if s != [] {
      var init := s[..|s| - 1];
      var last := s[|s| - 1];
      assert NoDuplicates(init);
      ElemsCard(init);
      assert last !in init by {
        forall i | 0 <= i < |init|
          ensures init[i] != last
        {
          assert init[i] == s[i];
        }
      }
      assert Elems(s) == Elems(init) + {last};
    }
  }

  lemma SubsetCard(a: set<Pos>, b: set<Pos>)
    requires a <= b
    ensures |a| <= |b|
  {
    assert b == a + (b - a);
  }

  /** A set of positions that is not empty has an element. */
  lemma SomePos(s: set<Pos>)
    requires s != {}
    ensures exists p :: p in s
  {
    assert (forall p :: p !in s) ==> s == {};
  }

  /** A set of integers that is not empty has an element. */
  lemma SomeInt(s: set<int>)
    requires s != {}
    ensures exists x :: x in s
  {
    assert (forall x :: x !in s) ==> s == {};
  }

  /** A finite set of integers that is not empty has a least element. */
  lemma {:induction false} MinExists(s: set<int>)
    requires s != {}
    ensures exists m :: m in s && forall q :: q in s ==> m <= q
    decreases |s|
  {
    SomeInt(s);
    var x: int :| x in s;
    var rest := s - {x};
    if forall q :: q in s ==> q == x {
      assert forall q :: q in s ==> x <= q;
    } else {
      var y :| y in s && y != x;
      assert y in rest;
      MinExists(rest);
      var m :| m in rest && forall q :: q in rest ==> m <= q;
      var least := if x < m then x else m;
      assert forall q :: q in s ==> q == x || q in rest;
      assert least in s && forall q :: q in s ==> least <= q;
    }
  }

  /** The smallest element of a set of integers that is not empty. */
  function Least(s: set<int>): (m: int)
    requires s != {}
    ensures m in s && forall x :: x in s ==> m <= x
  {
    MinExists(s);
    var m :| m in s && forall x :: x in s ==> m <= x;
    m
  }

  /** A set of one integer is that integer alone. */
  lemma Single(s: set<int>, b: int)
    requires |s| == 1 && b in s
    ensures s == {b}
  {
    assert s * {b} == {b};
    assert |s - {b}| == 0;
    assert s - {b} == {};
  }

  /** A finite set of integers that is not empty has a greatest element. */
  lemma MaxExists(s: set<int>)
    requires s != {}
    ensures exists m :: m in s && forall q :: q in s ==> q <= m
  {
    SomeInt(s);
    var x :| x in s;
    var neg := set y | y in s :: -y;
    assert -x in neg;
    MinExists(neg);
    var m :| m in neg && forall q :: q in neg ==> m <= q;
    assert -m in s && forall q :: q in s ==> q <= -m by {
      forall q | q in s ensures q <= -m {
        assert -q in neg;
      }
    }
  }
}
