/** The weighted A* search as transitions on values: an open set, a closed set that is
    never reopened, and for every generated cell its g and its parent. The classes in
    module AStar are proved to take exactly these transitions; what the search promises
    is proved here. */
module WeightedSearch {
  import opened GridPaths

  datatype Record = Record(g: nat, parent: Cell)

  datatype Search = Search(open: map<Cell, Record>, closed: map<Cell, Record>)

  // The doubled heuristic H_Weight * Manhattan, and the doubled key f.
  function H(c: Cell, goal: Cell): (h: nat)
    ensures h == 2 * (2 * Manhattan(c, goal))
  {
    4 * Manhattan(c, goal)
  }

  function F(r: Record, c: Cell, goal: Cell): nat {
    r.g + H(c, goal)
  }

  /** c is an open cell of least f. */
  ghost predicate LeastOpen(s: Search, c: Cell, goal: Cell) {
    c in s.open && forall o :: o in s.open ==> F(s.open[c], c, goal) <= F(s.open[o], o, goal)
  }

  // ----- transitions -----

  function RecordOf(s: Search, c: Cell): Record
    requires c in s.open || c in s.closed
  {
    if c in s.closed then s.closed[c] else s.open[c]
  }

  function Start(begin: Cell): Search {
    Search(map[begin := Record(0, begin)], map[])
  }

  function Close(s: Search, c: Cell): Search
    requires c in s.open
  {
    Search(s.open - {c}, s.closed[c := s.open[c]])
  }

  function Relax(m: TileMap, s: Search, cur: Cell, i: nat, goal: Cell): Search
    requires cur in s.closed && i < 8
  {
    var n := Neighbour(cur, i);
    var ng := s.closed[cur].g + G_WEIGHT[i];
    if !InMap(n) || n in s.closed || !Walkable(m, n) then s
    else if n in s.open && s.open[n].g <= ng then s
    else s.(open := s.open[n := Record(ng, cur)])
  }

  // ----- invariants -----

  /** Every generated cell other than the start has a closed, adjacent parent and its g
      is the parent's g plus the step between them. */
  ghost predicate TreeOk(m: TileMap, begin: Cell, s: Search) {
    && InMap(begin)
    && s.open.Keys !! s.closed.Keys
    && (begin in s.open ==> s == Start(begin))
    && (begin in s.closed ==> s.closed[begin] == Record(0, begin))
    && (begin in s.open || begin in s.closed)
    // The trigger keeps the prover from walking up the parents by itself.
    && (forall c {:trigger LinkOk(m, s, c)} :: (c in s.open || c in s.closed) && c != begin ==> LinkOk(m, s, c))
  }

  ghost predicate LinkOk(m: TileMap, s: Search, c: Cell)
    requires c in s.open || c in s.closed
  {
    var r := RecordOf(s, c);
    && Walkable(m, c)
    && r.parent in s.closed
    && Adjacent(r.parent, c)
    && r.g == s.closed[r.parent].g + StepCost(r.parent, c)
  }

  /** Direction i of closed cell x has been dealt with. */
  ghost predicate Settled(m: TileMap, s: Search, x: Cell, i: nat)
    requires x in s.closed && i < 8
  {
    var n := Neighbour(x, i);
    Walkable(m, n) ==>
      n in s.closed || (n in s.open && s.open[n].g <= s.closed[x].g + G_WEIGHT[i])
  }

  ghost predicate Expanded(m: TileMap, s: Search, x: Cell, k: nat)
    requires x in s.closed && k <= 8
  {
    forall i: nat :: i < k ==> Settled(m, s, x, i)
  }

  ghost predicate AllExpandedBut(m: TileMap, s: Search, pending: set<Cell>) {
    forall x :: x in s.closed && x !in pending ==> Expanded(m, s, x, 8)
  }

  /** Three times g of a closed cell is at most eight times the cost of any path to it. */
  ghost predicate Bounded(m: TileMap, begin: Cell, s: Search) {
    forall x, p :: x in s.closed && IsPath(m, begin, x, p) ==> 3 * s.closed[x].g <= 8 * Cost(p)
  }

  ghost predicate Inv(m: TileMap, begin: Cell, s: Search) {
    TreeOk(m, begin, s) && AllExpandedBut(m, s, {}) && Bounded(m, begin, s)
  }

  /** The invariant half-way through the neighbour loop for `cur`. */
  ghost predicate InvDuring(m: TileMap, begin: Cell, s: Search, cur: Cell, k: nat)
    requires k <= 8
  {
    && TreeOk(m, begin, s) && cur in s.closed && begin in s.closed
    && AllExpandedBut(m, s, {cur}) && Expanded(m, s, cur, k)
    && Bounded(m, begin, s)
  }

  lemma StartKeeps(m: TileMap, begin: Cell)
    requires InMap(begin)
    ensures Inv(m, begin, Start(begin))
  {
  }

  lemma InvDuringDone(m: TileMap, begin: Cell, s: Search, cur: Cell)
    requires InvDuring(m, begin, s, cur, 8)
    ensures Inv(m, begin, s)
  {
  }

  /** On any path from the start to a cell that is not closed there is an open cell whose
      g is within 8/3 of the cost of the path up to it. */
  lemma {:induction false} OpenCellOnPath(m: TileMap, begin: Cell, s: Search, to: Cell, p: seq<Cell>)
      returns (k: nat)
    requires Inv(m, begin, s) && IsPath(m, begin, to, p) && to !in s.closed
    ensures k < |p| && p[k] in s.open
    ensures 3 * s.open[p[k]].g <= 8 * Cost(p[..k + 1])
    decreases |p|
  {
    if |p| == 1 {
      k := 0;
    } else {
      var last := |p| - 1;
      var q := p[..last];
      assert IsPath(m, begin, q[last - 1], q);
      assert Adjacent(p[last - 1], p[last]);
      if q[last - 1] in s.closed {
        k := last;
        assert p[..k + 1] == p;
        var x := q[last - 1];
        var i := DirectionOf(x, to);
        assert Settled(m, s, x, i);
      } else {
        k := OpenCellOnPath(m, begin, s, q[last - 1], q);
        assert q[..k + 1] == p[..k + 1];
      }
    }
  }

  /** Closing a cell of least f keeps the bound: the heart of the sub-optimality theorem. */
  lemma CloseIsBounded(m: TileMap, begin: Cell, goal: Cell, s: Search, c: Cell, p: seq<Cell>)
    requires Inv(m, begin, s) && LeastOpen(s, c, goal)
    requires IsPath(m, begin, c, p)
    ensures 3 * s.open[c].g <= 8 * Cost(p)
  {
    var k := OpenCellOnPath(m, begin, s, c, p);
    ManhattanAlongPath(m, begin, c, p, k, goal);
    assert F(s.open[c], c, goal) <= F(s.open[p[k]], p[k], goal);
  }

  lemma CloseKeepsTree(m: TileMap, begin: Cell, s: Search, c: Cell)
    requires TreeOk(m, begin, s) && c in s.open
    ensures TreeOk(m, begin, Close(s, c)) && begin in Close(s, c).closed
  {
    var t := Close(s, c);
    forall d | (d in t.open || d in t.closed) && d != begin ensures LinkOk(m, t, d) {
      assert LinkOk(m, s, d);
    }
  }

  lemma CloseKeeps(m: TileMap, begin: Cell, goal: Cell, s: Search, c: Cell)
    requires Inv(m, begin, s) && LeastOpen(s, c, goal)
    ensures InvDuring(m, begin, Close(s, c), c, 0)
  {
    var t := Close(s, c);
    forall p | IsPath(m, begin, c, p) ensures 3 * t.closed[c].g <= 8 * Cost(p) {
      CloseIsBounded(m, begin, goal, s, c, p);
    }
    assert TreeOk(m, begin, t) by {
      CloseKeepsTree(m, begin, s, c);
    }
    forall x | x in t.closed && x != c ensures Expanded(m, t, x, 8) {
      assert Expanded(m, s, x, 8);
      forall i: nat | i < 8 ensures Settled(m, t, x, i) {
        assert Settled(m, s, x, i);
      }
    }
  }

  lemma RelaxKeeps(m: TileMap, begin: Cell, goal: Cell, s: Search, cur: Cell, i: nat)
    requires i < 8 && InvDuring(m, begin, s, cur, i)
    ensures InvDuring(m, begin, Relax(m, s, cur, i, goal), cur, i + 1)
  {
    var t := Relax(m, s, cur, i, goal);
    DirectionsAreAdjacency(cur, Neighbour(cur, i));
    forall d | (d in t.open || d in t.closed) && d != begin ensures LinkOk(m, t, d) {
      if d in s.open || d in s.closed {
        assert LinkOk(m, s, d);
      }
    }
    forall x, j: nat | x in t.closed && j < 8 && Settled(m, s, x, j) ensures Settled(m, t, x, j) {
    }
    assert Settled(m, t, cur, i);
    forall x | x in t.closed && x != cur ensures Expanded(m, t, x, 8) {
      assert Expanded(m, s, x, 8);
    }
    assert Expanded(m, s, cur, i);
    assert Expanded(m, t, cur, i + 1);
  }

  // ----- what the invariant gives -----

  /** The cells met by following parents from c, the start first. */
  ghost function Chain(m: TileMap, begin: Cell, s: Search, c: Cell): (p: seq<Cell>)
    requires TreeOk(m, begin, s) && (c in s.open || c in s.closed)
    decreases RecordOf(s, c).g
  {
    if c == begin then [c]
    else
      assert LinkOk(m, s, c);
      Chain(m, begin, s, RecordOf(s, c).parent) + [c]
  }

  lemma ParentOf(m: TileMap, begin: Cell, s: Search, c: Cell) returns (parent: Cell)
    requires TreeOk(m, begin, s) && (c in s.open || c in s.closed) && c != begin
    ensures parent == RecordOf(s, c).parent && parent in s.closed && Adjacent(parent, c) && Walkable(m, c)
    ensures RecordOf(s, c).g == RecordOf(s, parent).g + StepCost(parent, c)
    ensures Chain(m, begin, s, c) == Chain(m, begin, s, parent) + [c]
  {
    assert LinkOk(m, s, c);
    parent := RecordOf(s, c).parent;
  }

  lemma ChainStarts(m: TileMap, begin: Cell, s: Search)
    requires TreeOk(m, begin, s) && (begin in s.open || begin in s.closed)
    ensures Chain(m, begin, s, begin) == [begin] && RecordOf(s, begin).g == 0
    ensures IsPath(m, begin, begin, [begin]) && Cost([begin]) == 0
  {
  }

  /** Following parents from a generated cell reaches the start in strictly decreasing g;
      read backwards, the chain is a wall-free path whose cost is exactly g. */
  lemma {:induction false} ChainIsPath(m: TileMap, begin: Cell, s: Search, c: Cell)
    requires TreeOk(m, begin, s) && (c in s.open || c in s.closed)
    ensures IsPath(m, begin, c, Chain(m, begin, s, c))
    ensures Cost(Chain(m, begin, s, c)) == RecordOf(s, c).g
    decreases RecordOf(s, c).g
  {
    hide TreeOk, IsPath, Chain, Cost, RecordOf;
    if c == begin {
      ChainStarts(m, begin, s);
    } else {
      var parent := ParentOf(m, begin, s, c);
      ChainIsPath(m, begin, s, parent);
      PathExtend(m, begin, parent, Chain(m, begin, s, parent), c);
    }
  }

  /** With nothing left open, the closed cells are exactly the reachable ones. */
  lemma ExhaustedIsReachable(m: TileMap, begin: Cell, s: Search, c: Cell)
    requires Inv(m, begin, s) && s.open == map[]
    ensures c in s.closed <==> Reachable(m, begin, c)
  {
    if c in s.closed {
      ChainIsPath(m, begin, s, c);
    }
    if Reachable(m, begin, c) && c !in s.closed {
      var p :| IsPath(m, begin, c, p);
      var k := OpenCellOnPath(m, begin, s, c, p);
      assert false;
    }
  }

  lemma GeneratedAreReachable(m: TileMap, begin: Cell, s: Search, c: Cell)
    requires TreeOk(m, begin, s) && (c in s.open || c in s.closed)
    ensures Reachable(m, begin, c) && InMap(c)
  {
    ChainIsPath(m, begin, s, c);
  }

  /** The open list never outgrows the map, so a heap of capacity 2500 never fills. */
  lemma OpenFitsHeap(m: TileMap, begin: Cell, s: Search)
    requires TreeOk(m, begin, s)
    ensures |s.open| + |s.closed| <= MAP_WIDTH * MAP_HEIGHT
  {
    var all := s.open.Keys + s.closed.Keys;
    forall c | c in all ensures InMap(c) {
      if c != begin {
        assert LinkOk(m, s, c);
      }
    }
    AtMostAllCells(all);
    assert |all| == |s.open.Keys| + |s.closed.Keys|;
  }
}
