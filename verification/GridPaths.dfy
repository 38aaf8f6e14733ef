/** The 60 x 40 tile map, its 8-connected wall-free paths and their costs.

    Every cost in the search is a multiple of one half (step weights 1 and 1.5,
    heuristic weight 2), so all costs are stored doubled: a straight step costs 2,
    a diagonal step costs 3, and the doubled heuristic is 4 times the Manhattan
    distance. */
module GridPaths {

  const MAP_WIDTH: int := 60
  const MAP_HEIGHT: int := 40

  datatype Cell = Cell(x: int, y: int)

  datatype TileType = PathTile | WallTile | BeginTile | EndTile

  type TileMap = m: seq<seq<TileType>> |
      |m| == MAP_HEIGHT && forall y :: 0 <= y < MAP_HEIGHT ==> |m[y]| == MAP_WIDTH
    witness seq(MAP_HEIGHT, _ => seq(MAP_WIDTH, _ => PathTile))

  predicate InMap(c: Cell) {
    0 <= c.x < MAP_WIDTH && 0 <= c.y < MAP_HEIGHT
  }

  predicate Walkable(m: TileMap, c: Cell) {
    InMap(c) && m[c.y][c.x] != WallTile
  }

  function Abs(a: int): nat {
    if a < 0 then -a else a
  }

  function Manhattan(a: Cell, b: Cell): nat {
    Abs(a.x - b.x) + Abs(a.y - b.y)
  }

  // ----- the eight directions, in the order in which the search tries them -----

  const DX: seq<int> := [1, 1, 0, -1, -1, -1, 0, 1]
  const DY: seq<int> := [0, 1, 1, 1, 0, -1, -1, -1]
  const G_WEIGHT: seq<nat> := [2, 3, 2, 3, 2, 3, 2, 3]

  function Neighbour(c: Cell, i: nat): Cell
    requires i < 8
  {
    Cell(c.x + DX[i], c.y + DY[i])
  }

  // ----- adjacency and path cost, stated without the direction table -----

  predicate Adjacent(a: Cell, b: Cell) {
    a != b && Abs(a.x - b.x) <= 1 && Abs(a.y - b.y) <= 1
  }

  function StepCost(a: Cell, b: Cell): nat {
    if a.x != b.x && a.y != b.y then 3 else 2
  }

  /** The direction table visits exactly the adjacent cells, each at its step cost. */
  lemma DirectionsAreAdjacency(a: Cell, b: Cell)
    ensures Adjacent(a, b) <==> exists i: nat :: i < 8 && Neighbour(a, i) == b
    ensures forall i: nat :: i < 8 && Neighbour(a, i) == b ==> G_WEIGHT[i] == StepCost(a, b)
  {
    if Adjacent(a, b) {
      var i := DirectionOf(a, b);
      assert Neighbour(a, i) == b;
    }
  }

  function DirectionOf(a: Cell, b: Cell): (i: nat)
    requires Adjacent(a, b)
    ensures i < 8 && Neighbour(a, i) == b && G_WEIGHT[i] == StepCost(a, b)
  {
    if b.x == a.x + 1 then (if b.y == a.y then 0 else if b.y == a.y + 1 then 1 else 7)
    else if b.x == a.x then (if b.y == a.y + 1 then 2 else 6)
    else (if b.y == a.y + 1 then 3 else if b.y == a.y then 4 else 5)
  }

  /** A walk that leaves `from` and steps only onto walkable cells. The first cell
      itself may be a wall: the search never tests the cell it starts on. */
  ghost predicate IsPath(m: TileMap, from: Cell, to: Cell, p: seq<Cell>) {
    && |p| >= 1
    && p[0] == from
    && p[|p| - 1] == to
    && forall i :: 1 <= i < |p| ==> Walkable(m, p[i]) && Adjacent(p[i - 1], p[i])
  }

  function Cost(p: seq<Cell>): nat {
    if |p| <= 1 then 0
    else Cost(p[..|p| - 1]) + StepCost(p[|p| - 2], p[|p| - 1])
  }

  ghost predicate Reachable(m: TileMap, from: Cell, to: Cell) {
    exists p :: IsPath(m, from, to, p)
  }

  lemma PathExtend(m: TileMap, from: Cell, to: Cell, p: seq<Cell>, n: Cell)
    requires IsPath(m, from, to, p) && Adjacent(to, n) && Walkable(m, n)
    ensures IsPath(m, from, n, p + [n])
    ensures Cost(p + [n]) == Cost(p) + StepCost(to, n)
  {
    assert (p + [n])[..|p|] == p;
  }

  function Reversed(p: seq<Cell>): (q: seq<Cell>)
    ensures |q| == |p| && forall i :: 0 <= i < |p| ==> q[i] == p[|p| - 1 - i]
  {
    if p == [] then [] else [p[|p| - 1]] + Reversed(p[..|p| - 1])
  }

  lemma {:induction false} CostOfCons(c: Cell, q: seq<Cell>)
    requires |q| >= 1
    ensures Cost([c] + q) == StepCost(c, q[0]) + Cost(q)
  {
    var p, n := [c] + q, |q|;
    assert p[..n] == [c] + q[..n - 1];
    if n > 1 {
      CostOfCons(c, q[..n - 1]);
    }
  }

  lemma {:induction false} CostOfReversed(p: seq<Cell>)
    ensures Cost(Reversed(p)) == Cost(p)
  {
    if |p| > 1 {
      var last := |p| - 1;
      CostOfReversed(p[..last]);
      CostOfCons(p[last], Reversed(p[..last]));
    }
  }

  /** A path that starts on a walkable cell is, read backwards, a path back of the same cost. */
  lemma PathReverse(m: TileMap, a: Cell, b: Cell, p: seq<Cell>)
    requires IsPath(m, a, b, p) && Walkable(m, a)
    ensures IsPath(m, b, a, Reversed(p)) && Cost(Reversed(p)) == Cost(p)
  {
    CostOfReversed(p);
    var q := Reversed(p);
    forall i | 1 <= i < |q|
      ensures Walkable(m, q[i]) && Adjacent(q[i - 1], q[i])
    {
      var j := |p| - i;
      assert q[i - 1] == p[j] && q[i] == p[j - 1];
      assert Adjacent(p[j - 1], p[j]);
    }
  }

  /** Three quarters of the Manhattan distance is a consistent heuristic for the weights
      1 and 1.5; doubled and cleared of fractions, over a whole path suffix. */
  lemma {:induction false} ManhattanAlongPath(m: TileMap, from: Cell, to: Cell, p: seq<Cell>, k: nat, goal: Cell)
    requires IsPath(m, from, to, p) && k < |p|
    ensures 8 * Cost(p[..k + 1]) + 12 * Manhattan(p[k], goal) <= 8 * Cost(p) + 12 * Manhattan(to, goal)
    decreases |p| - k
  {
    if k == |p| - 1 {
      assert p[..k + 1] == p;
    } else {
      ManhattanAlongPath(m, from, to, p, k + 1, goal);
      var a, b := p[k], p[k + 1];
      assert Adjacent(p[k + 1 - 1], p[k + 1]);
      assert p[..k + 2][..k + 1] == p[..k + 1];
      assert Cost(p[..k + 2]) == Cost(p[..k + 1]) + StepCost(a, b);
      ConsistentStep(a, b, goal);
    }
  }

  lemma ConsistentStep(a: Cell, b: Cell, goal: Cell)
    requires Adjacent(a, b)
    ensures 12 * Manhattan(a, goal) <= 8 * StepCost(a, b) + 12 * Manhattan(b, goal)
  {
  }

  // ----- counting cells -----

  lemma {:induction false} SubsetSize<T>(a: set<T>, b: set<T>)
    requires a <= b
    ensures |a| <= |b|
    ensures |a| == |b| ==> a == b
  {
    assert b == a + (b - a);
    assert |b| == |a| + |b - a|;
    if |a| == |b| {
      assert b - a == {};
    }
  }

  function Row(y: int, n: nat): (s: set<Cell>)
    ensures forall c :: c in s <==> 0 <= c.x < n && c.y == y
    ensures |s| == n
  {
    if n == 0 then {} else Row(y, n - 1) + {Cell(n - 1, y)}
  }

  function Rectangle(w: nat, h: nat): (s: set<Cell>)
    ensures forall c :: c in s <==> 0 <= c.x < w && 0 <= c.y < h
    ensures |s| == w * h
  {
    if h == 0 then {}
    else
      assert w * h == w * (h - 1) + w;
      assert Rectangle(w, h - 1) !! Row(h - 1, w);
      Rectangle(w, h - 1) + Row(h - 1, w)
  }

  /** A set of cells of a w x h rectangle has at most w * h members. */
  lemma RectangleBound(s: set<Cell>, w: nat, h: nat)
    requires forall c :: c in s ==> 0 <= c.x < w && 0 <= c.y < h
    ensures |s| <= w * h
  {
    SubsetSize(s, Rectangle(w, h));
  }

  /** Any set of map cells has at most 2400 members. */
  lemma AtMostAllCells(s: set<Cell>)
    requires forall c :: c in s ==> InMap(c)
    ensures |s| <= MAP_WIDTH * MAP_HEIGHT
  {
    RectangleBound(s, MAP_WIDTH, MAP_HEIGHT);
  }
}
