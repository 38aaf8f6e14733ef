/** The weighted search where nothing is in the way: when the rectangle spanned by the two ends
    has no walls, every turn closes a cell one step nearer to the end. */
module StraightSearch {
  import opened Basics
  import opened GridPaths
  import opened WeightedSearch

  /** The doubled cost of the cheapest walk on a map without walls: diagonal steps as long as both
      coordinates differ, then straight ones. */
  function Octile(a: Cell, b: Cell): nat {
    var dx, dy := Abs(b.x - a.x), Abs(b.y - a.y);
    3 * Min(dx, dy) + 2 * (Max(dx, dy) - Min(dx, dy))
  }

  /** No path is cheaper. */
  lemma {:induction false} OctileIsLeast(m: TileMap, a: Cell, b: Cell, p: seq<Cell>)
    requires IsPath(m, a, b, p)
    ensures Octile(a, b) <= Cost(p)
    decreases |p|
  {
    OctileToItself(a);
    if |p| > 1 {
      hide Octile, StepCost, Walkable;
      var n := |p| - 1;
      var q := p[..n];
      assert IsPath(m, a, q[n - 1], q);
      OctileIsLeast(m, a, q[n - 1], q);
      assert Adjacent(p[n - 1], p[n]);
      OctileStep(a, p[n - 1], p[n]);
    }
  }

  lemma OctileToItself(a: Cell)
    ensures Octile(a, a) == 0
  {
  }

  lemma OctileStep(a: Cell, b: Cell, c: Cell)
    requires Adjacent(b, c)
    ensures Octile(a, c) <= Octile(a, b) + StepCost(b, c)
  {
  }

  predicate InBox(a: Cell, b: Cell, c: Cell) {
    (a.x <= c.x <= b.x || b.x <= c.x <= a.x) && (a.y <= c.y <= b.y || b.y <= c.y <= a.y)
  }

  /** No wall in the rectangle spanned by the two cells; the first may be one itself. */
  ghost predicate FreeBox(m: TileMap, begin: Cell, goal: Cell) {
    forall c :: InBox(begin, goal, c) && c != begin ==> Walkable(m, c)
  }

  function Sign(d: int): int {
    if d < 0 then -1 else if d == 0 then 0 else 1
  }

  /** The neighbour in the direction of the goal. */
  function Towards(c: Cell, goal: Cell): Cell {
    Cell(c.x + Sign(goal.x - c.x), c.y + Sign(goal.y - c.y))
  }

  /** Of all neighbours it has strictly the least f, less than that of the cell itself. */
  lemma TowardsIsBest(c: Cell, goal: Cell, o: Cell)
    requires c != goal && Adjacent(c, o)
    ensures var n := Towards(c, goal);
      && Adjacent(c, n) && Manhattan(n, goal) < Manhattan(c, goal)
      && StepCost(c, n) + H(n, goal) < H(c, goal) && StepCost(c, n) + Octile(n, goal) == Octile(c, goal)
      && (o != n ==> StepCost(c, n) + H(n, goal) < StepCost(c, o) + H(o, goal))
  {
  }

  lemma TowardsInBox(begin: Cell, goal: Cell, c: Cell)
    requires InBox(begin, goal, c)
    ensures InBox(begin, goal, Towards(c, goal))
  {
  }

  /** The first k neighbours of a closed cell relaxed. */
  function RelaxAll(m: TileMap, s: Search, cur: Cell, k: nat, goal: Cell): (t: Search)
    requires cur in s.closed && k <= 8
    ensures t.closed == s.closed
  {
    if k == 0 then s else Relax(m, RelaxAll(m, s, cur, k - 1, goal), cur, k - 1, goal)
  }

  /** An open cell was open before, as it is, or is a neighbour with the closed cell as parent. */
  lemma {:induction false} RelaxedFrom(m: TileMap, s: Search, cur: Cell, k: nat, goal: Cell, o: Cell)
    requires cur in s.closed && k <= 8 && o in RelaxAll(m, s, cur, k, goal).open
    ensures var r := RelaxAll(m, s, cur, k, goal).open[o];
      (o in s.open && s.open[o] == r) || (Adjacent(cur, o) && r.g == s.closed[cur].g + StepCost(cur, o))
  {
    if k > 0 {
      var t := RelaxAll(m, s, cur, k - 1, goal);
      DirectionsAreAdjacency(cur, o);
      if o in t.open {
        RelaxedFrom(m, s, cur, k - 1, goal, o);
      }
    }
  }

  /** A walkable neighbour that is not closed is open afterwards, with at most that g. */
  lemma {:induction false} RelaxedTo(m: TileMap, s: Search, cur: Cell, k: nat, goal: Cell, i: nat)
    requires cur in s.closed && i < k <= 8 && Walkable(m, Neighbour(cur, i)) && Neighbour(cur, i) !in s.closed
    ensures var t, n := RelaxAll(m, s, cur, k, goal), Neighbour(cur, i);
      n in t.open && t.open[n].g <= s.closed[cur].g + G_WEIGHT[i]
  {
    if k > i + 1 {
      RelaxedTo(m, s, cur, k - 1, goal, i);
    }
  }

  /** The search is on course: b is the one open cell of least f, all closed cells are farther
      from the goal, g is what an optimal walk has spent, and no turn was wasted. */
  ghost predicate OnCourse(m: TileMap, begin: Cell, goal: Cell, s: Search, b: Cell) {
    && b in s.open && InBox(begin, goal, b)
    && (forall o :: o in s.open && o != b ==> F(s.open[b], b, goal) < F(s.open[o], o, goal))
    && (forall c :: c in s.closed ==> Manhattan(c, goal) > Manhattan(b, goal))
    && s.open[b].g + Octile(b, goal) == Octile(begin, goal)
    && |s.closed| + Manhattan(b, goal) <= Manhattan(begin, goal)
  }

  ghost predicate Course(m: TileMap, begin: Cell, goal: Cell, s: Search) {
    FreeBox(m, begin, goal) ==> exists b :: OnCourse(m, begin, goal, s, b)
  }

  lemma CourseStarts(m: TileMap, begin: Cell, goal: Cell)
    ensures Course(m, begin, goal, Start(begin))
  {
    assert OnCourse(m, begin, goal, Start(begin), begin);
  }

  /** What a search on course closes next. */
  lemma CourseTells(m: TileMap, begin: Cell, goal: Cell, s: Search)
    requires Course(m, begin, goal, s) && FreeBox(m, begin, goal)
    ensures s.open != map[] && |s.closed| <= Manhattan(begin, goal)
    ensures forall c :: LeastOpen(s, c, goal) ==> OnCourse(m, begin, goal, s, c)
    ensures LeastOpen(s, goal, goal) ==> s.open[goal].g == Octile(begin, goal)
  {
    var b :| OnCourse(m, begin, goal, s, b);
    forall c | LeastOpen(s, c, goal) ensures c == b {
    }
  }

  lemma CourseKeeps(m: TileMap, begin: Cell, goal: Cell, s: Search, b: Cell)
    requires Course(m, begin, goal, s) && LeastOpen(s, b, goal) && b != goal && b !in s.closed
    ensures Course(m, begin, goal, RelaxAll(m, Close(s, b), b, 8, goal))
  {
    var n := Towards(b, goal);
    if FreeBox(m, begin, goal) {
      CourseTells(m, begin, goal, s);
      TowardsIsBest(b, goal, n);
      TowardsInBox(begin, goal, b);
      BoxIsFree(m, begin, goal, n);
      hide FreeBox, Course;
      NextOnCourse(m, begin, goal, s, b);
    }
    CourseOf(m, begin, goal, RelaxAll(m, Close(s, b), b, 8, goal), n);
  }

  lemma BoxIsFree(m: TileMap, begin: Cell, goal: Cell, n: Cell)
    requires FreeBox(m, begin, goal) && InBox(begin, goal, n) && n != begin
    ensures Walkable(m, n)
  {
  }

  lemma CourseOf(m: TileMap, begin: Cell, goal: Cell, s: Search, b: Cell)
    requires FreeBox(m, begin, goal) ==> OnCourse(m, begin, goal, s, b)
    ensures Course(m, begin, goal, s)
  {
  }

  lemma NextOnCourse(m: TileMap, begin: Cell, goal: Cell, s: Search, b: Cell)
    requires OnCourse(m, begin, goal, s, b) && b != goal && b !in s.closed && Walkable(m, Towards(b, goal))
    ensures OnCourse(m, begin, goal, RelaxAll(m, Close(s, b), b, 8, goal), Towards(b, goal))
  {
    var u, n := Close(s, b), Towards(b, goal);
    var t := RelaxAll(m, u, b, 8, goal);
    TowardsIsBest(b, goal, n);
    TowardsInBox(begin, goal, b);
    var i := DirectionOf(b, n);
    assert n !in u.closed;
    RelaxedTo(m, u, b, 8, goal, i);
    RelaxedFrom(m, u, b, 8, goal, n);
    hide Octile, InBox, RelaxAll, Towards, Adjacent;
    assert t.open[n].g == s.open[b].g + StepCost(b, n);
    forall o | o in t.open && o != n ensures F(t.open[n], n, goal) < F(t.open[o], o, goal) {
      RelaxedFrom(m, u, b, 8, goal, o);
      if !(o in u.open && u.open[o] == t.open[o]) {
        TowardsIsBest(b, goal, o);
      }
    }
    assert |t.closed| == |s.closed| + 1 by {
      assert t.closed.Keys == s.closed.Keys + {b};
    }
  }
}
