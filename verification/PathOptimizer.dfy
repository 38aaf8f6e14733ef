/** The optimizer of a found path: nodes are fed to it one by one, and a node is taken out when
    the two around it see each other. */
module PathOptimizer {
  import opened GridPaths
  import opened RayCast

  const JPS_WIDTH: int := 50
  const JPS_HEIGHT: int := 24

  type JpsMap = m: seq<seq<TileType>> |
      |m| == JPS_HEIGHT && forall y :: 0 <= y < JPS_HEIGHT ==> |m[y]| == JPS_WIDTH
    witness seq(JPS_HEIGHT, _ => seq(JPS_WIDTH, _ => PathTile))

  predicate OnMap(c: Cell) {
    0 <= c.x < JPS_WIDTH && 0 <= c.y < JPS_HEIGHT
  }

  ghost predicate AllOnMap(s: seq<Cell>) {
    forall i :: 0 <= i < |s| ==> OnMap(s[i])
  }

  predicate IsWall(m: JpsMap, c: Cell) {
    OnMap(c) && m[c.y][c.x] == WallTile
  }

  /** No cell of the ray from a to b is a wall, its ends included. */
  ghost predicate Sees(m: JpsMap, a: Cell, b: Cell) {
    forall k: nat :: k <= Length(a, b) ==> !IsWall(m, RayCell(a, b, k))
  }

  lemma RayOnMap(a: Cell, b: Cell, k: nat)
    requires OnMap(a) && OnMap(b) && k <= Length(a, b)
    ensures OnMap(RayCell(a, b, k))
  {
    hide RayCell, Length;
    RayInBox(a, b, k);
  }

  ghost predicate EachSeesNext(m: JpsMap, s: seq<Cell>) {
    forall i :: 0 <= i < |s| - 1 ==> Sees(m, s[i], s[i + 1])
  }

  /** Cells on one row, column or diagonal see each other exactly when no cell of the run between
      them is a wall. */
  lemma SeesAlongRun(m: JpsMap, a: Cell, b: Cell)
    requires IsRun(a, b)
    ensures Sees(m, a, b) <==> forall k: nat :: k <= Length(a, b) ==> !IsWall(m, RunCell(a, b, k))
  {
    hide RayCell, RunCell, Length, IsRun;
    forall k: nat | k <= Length(a, b) ensures RayCell(a, b, k) == RunCell(a, b, k) {
      RayIsRun(a, b, k);
    }
  }

  /** On a wall-free walk of single steps each position sees the next. */
  lemma WalkSees(m: JpsMap, walk: seq<Cell>)
    requires forall i :: 0 <= i < |walk| ==> !IsWall(m, walk[i])
    requires forall i :: 0 <= i < |walk| - 1 ==> Adjacent(walk[i], walk[i + 1])
    ensures EachSeesNext(m, walk)
  {
    forall i | 0 <= i < |walk| - 1 ensures Sees(m, walk[i], walk[i + 1]) {
      NeighboursSee(m, walk[i], walk[i + 1]);
    }
  }

  lemma NeighboursSee(m: JpsMap, a: Cell, b: Cell)
    requires Adjacent(a, b) && !IsWall(m, a) && !IsWall(m, b)
    ensures Sees(m, a, b)
  {
    RayEnds(a, b);
    assert Length(a, b) == 1;
    hide RayCell, Length;
    forall k: nat | k <= Length(a, b) ensures !IsWall(m, RayCell(a, b, k)) {
      assert k == 0 || k == 1;
    }
  }

  /** How much of the list stays when p is fed: the last node goes if the one before sees p. */
  ghost function Kept(m: JpsMap, list: seq<Cell>, p: Cell): (n: nat)
    ensures |list| - 1 <= n <= |list| && (n == 0 ==> list == [])
    ensures n < |list| <==> |list| >= 2 && Sees(m, list[|list| - 2], p)
  {
    if |list| >= 2 && Sees(m, list[|list| - 2], p) then |list| - 1 else |list|
  }

  ghost function Fed(m: JpsMap, list: seq<Cell>, p: Cell): seq<Cell> {
    list[..Kept(m, list, p)] + [p]
  }

  ghost function Optimized(m: JpsMap, fed: seq<Cell>): seq<Cell> {
    if fed == [] then [] else Fed(m, Optimized(m, fed[..|fed| - 1]), fed[|fed| - 1])
  }

  lemma {:induction false} LastIsKept(m: JpsMap, fed: seq<Cell>)
    requires fed != []
    ensures Optimized(m, fed) != [] && Optimized(m, fed)[|Optimized(m, fed)| - 1] == fed[|fed| - 1]
  {
  }

  /** If each position fed sees the next one, so does each position of the list: every line
      drawn between neighbours of the optimized path misses the walls. */
  lemma {:induction false} SightIsKept(m: JpsMap, fed: seq<Cell>)
    requires EachSeesNext(m, fed)
    ensures EachSeesNext(m, Optimized(m, fed))
  {
    if fed != [] {
      var before := fed[..|fed| - 1];
      SightIsKept(m, before);
      if before != [] {
        LastIsKept(m, before);
        assert Sees(m, fed[|fed| - 2], fed[|fed| - 2 + 1]);
      }
    }
  }

  /** If the first position sees all from the third on, only the first and the last stay. */
  lemma {:induction false} VisibleChainCollapses(m: JpsMap, fed: seq<Cell>)
    requires |fed| >= 2 && forall i :: 2 <= i < |fed| ==> Sees(m, fed[0], fed[i])
    ensures Optimized(m, fed) == [fed[0], fed[|fed| - 1]]
  {
    hide Sees;
    var n := |fed| - 1;
    if n == 1 {
      assert fed[..1][..0] == [] && Optimized(m, fed[..1]) == [fed[0]];
    } else {
      VisibleChainCollapses(m, fed[..n]);
    }
  }

  /** `at` gives, in increasing order, the positions in `fed` that the list keeps. */
  ghost predicate Selects(at: seq<nat>, fed: seq<Cell>, list: seq<Cell>) {
    && |at| == |list|
    && (forall i :: 0 <= i < |at| ==> at[i] < |fed| && list[i] == fed[at[i]])
    && forall i, j :: 0 <= i < j < |at| ==> at[i] < at[j]
  }

  lemma SelectLast(at: seq<nat>, fed: seq<Cell>, list: seq<Cell>, keep: nat)
    requires fed != [] && keep <= |list| && Selects(at, fed[..|fed| - 1], list)
    ensures Selects(at[..keep] + [|fed| - 1], fed, list[..keep] + [fed[|fed| - 1]])
  {
  }

  /** The list is a subsequence of what was fed and keeps the first and the last position. */
  lemma {:induction false} ListIsSubsequence(m: JpsMap, fed: seq<Cell>) returns (at: seq<nat>)
    ensures Selects(at, fed, Optimized(m, fed))
    ensures fed != [] ==> at != [] && at[0] == 0 && at[|at| - 1] == |fed| - 1
  {
    if fed == [] {
      at := [];
    } else {
      var last := |fed| - 1;
      var list := Optimized(m, fed[..last]);
      at := ListIsSubsequence(m, fed[..last]);
      SelectLast(at, fed, list, Kept(m, list, fed[last]));
      hide Kept;
      at := at[..Kept(m, list, fed[last])] + [last];
    }
  }

  class Node {
    const position: Cell
    var pParent: Node?

    constructor (position: Cell)
      ensures this.position == position && pParent == null
    {
      this.position := position;
      pParent := null;
    }
  }

  ghost function Positions(nodes: seq<Node>): (s: seq<Cell>)
    ensures |s| == |nodes| && forall i :: 0 <= i < |s| ==> s[i] == nodes[i].position
  {
    seq(|nodes|, i requires 0 <= i < |nodes| => nodes[i].position)
  }

  lemma FedNodes(m: JpsMap, nodes: seq<Node>, p: Node)
    ensures Positions(if |nodes| >= 2 && Sees(m, nodes[|nodes| - 2].position, p.position)
                      then nodes[..|nodes| - 1] + [p] else nodes + [p])
         == Fed(m, Positions(nodes), p.position)
  {
    hide Sees;
  }

  /** The nodes hang on each other by pParent, in this order. */
  ghost predicate Linked(nodes: seq<Node>)
    reads nodes
  {
    && (forall i :: 0 <= i < |nodes| - 1 ==> nodes[i].pParent == nodes[i + 1])
    && (nodes != [] ==> nodes[|nodes| - 1].pParent == null)
    && forall i, j :: 0 <= i < j < |nodes| ==> nodes[i] != nodes[j]
  }

  method NextOf(node: Node, ghost chain: seq<Node>, ghost i: nat) returns (next: Node?)
    requires Linked(chain) && i < |chain| && chain[i] == node
    ensures next == if i + 1 == |chain| then null else chain[i + 1]
  {
    next := node.pParent;
  }

  /** The cells of the ray from a to b, its ends included. */
  function Ray(a: Cell, b: Cell): (s: seq<Cell>)
    ensures |s| == Length(a, b) + 1
  {
    seq(Length(a, b) + 1, k requires 0 <= k <= Length(a, b) => RayCell(a, b, k))
  }

  function Drawn(s: seq<Cell>): seq<Cell> {
    if |s| < 2 then [] else Drawn(s[..|s| - 1]) + Ray(s[|s| - 2], s[|s| - 1])
  }

  /** A walk over free cells: each is 8-adjacent to the one before, or the same. */
  ghost predicate FreeWalk(m: JpsMap, w: seq<Cell>) {
    && (forall i :: 0 <= i < |w| ==> !IsWall(m, w[i]))
    && forall i :: 0 <= i < |w| - 1 ==> w[i] == w[i + 1] || Adjacent(w[i], w[i + 1])
  }

  lemma RayIsFreeWalk(m: JpsMap, a: Cell, b: Cell)
    requires Sees(m, a, b)
    ensures FreeWalk(m, Ray(a, b)) && Ray(a, b)[0] == a && Ray(a, b)[Length(a, b)] == b
  {
    RayEnds(a, b);
    hide RayCell, Length, Adjacent;
    forall k: nat | k < Length(a, b) ensures Adjacent(Ray(a, b)[k], Ray(a, b)[k + 1]) {
      RayIsConnected(a, b, k);
    }
  }

  lemma WalksMeet(m: JpsMap, v: seq<Cell>, w: seq<Cell>)
    requires FreeWalk(m, v) && FreeWalk(m, w)
    requires v != [] && w != [] ==> v[|v| - 1] == w[0]
    ensures FreeWalk(m, v + w)
  {
  }

  /** What is drawn for positions that see each other leads from the first to the last without
      meeting a wall. */
  lemma {:induction false} DrawnIsFreeWalk(m: JpsMap, s: seq<Cell>)
    requires EachSeesNext(m, s) && |s| >= 2
    ensures FreeWalk(m, Drawn(s)) && Drawn(s) != []
    ensures Drawn(s)[0] == s[0] && Drawn(s)[|Drawn(s)| - 1] == s[|s| - 1]
  {
    hide Sees, Ray, RayCell, Length, FreeWalk;
    var n := |s| - 1;
    var ray := Ray(s[n - 1], s[n]);
    LastSees(m, s);
    RayIsFreeWalk(m, s[n - 1], s[n]);
    hide EachSeesNext;
    assert Drawn(s) == Drawn(s[..n]) + ray;
    if n >= 2 {
      DrawnIsFreeWalk(m, s[..n]);
    }
    WalksMeet(m, Drawn(s[..n]), ray);
  }

  lemma LastSees(m: JpsMap, s: seq<Cell>)
    requires EachSeesNext(m, s) && |s| >= 2
    ensures Sees(m, s[|s| - 2], s[|s| - 1]) && EachSeesNext(m, s[..|s| - 1])
  {
    hide Sees;
    assert s[|s| - 2 + 1] == s[|s| - 1];
  }

  /** The optimizer's purpose: fed a path whose neighbours see each other, what is then drawn
      is a wall-free way from the path's first position to its last. */
  lemma OptimizedPathIsFree(m: JpsMap, fed: seq<Cell>)
    requires EachSeesNext(m, fed) && |fed| >= 2
    ensures var way := Drawn(Optimized(m, fed));
            FreeWalk(m, way) && way != [] && way[0] == fed[0] && way[|way| - 1] == fed[|fed| - 1]
  {
    SightIsKept(m, fed);
    var at := ListIsSubsequence(m, fed);
    hide Sees, RayCell, Length, Ray, FreeWalk;
    assert |at| >= 2;
    DrawnIsFreeWalk(m, Optimized(m, fed));
  }

  /** Draws the rays between the nodes of a list. */
  method DrawPathCell(end: Node, ghost nodes: seq<Node>) returns (drawn: seq<Cell>)
    requires nodes != [] && nodes[0] == end && Linked(nodes)
    ensures drawn == Drawn(Positions(nodes))
  {
    hide Linked, Ray;
    var beginPos: Node? := end;
    var endPos := NextOf(end, nodes, 0);
    ghost var i := 1;
    drawn := [];
    while endPos != null
      invariant 1 <= i <= |nodes| && beginPos == nodes[i - 1]
      invariant endPos == if i == |nodes| then null else nodes[i]
      invariant drawn == Drawn(Positions(nodes)[..i])
      decreases |nodes| - i
    {
      var ray := CellsOfRay(beginPos.position, endPos.position);
      drawn := drawn + ray;
      assert Positions(nodes)[..i + 1][..i] == Positions(nodes)[..i];
      beginPos := NextOf(beginPos, nodes, i - 1);
      endPos := NextOf(endPos, nodes, i);
      i := i + 1;
    }
    assert Positions(nodes)[..i] == Positions(nodes);
  }

  /** GetNext until it says that the end is passed gives the cells of the ray, no more and no fewer. */
  method CellsOfRay(begin: Cell, end: Cell) returns (cells: seq<Cell>)
    ensures cells == Ray(begin, end)
  {
    hide RayCell, Length, CRayCast.Valid;
    var rayCast := new CRayCast();
    rayCast.SetBegin(begin);
    rayCast.SetEnd(end);
    cells := [];
    var over, cur := rayCast.GetNext();
    while !over
      invariant fresh(rayCast) && rayCast.Valid() && rayCast.mBegin == begin && rayCast.mEnd == end
      invariant 0 < rayCast.mNum <= Length(begin, end) + 2 && over == (rayCast.mNum == Length(begin, end) + 2)
      invariant cur == RayCell(begin, end, rayCast.mNum - 1)
      invariant cells == seq(rayCast.mNum - 1, k requires 0 <= k => RayCell(begin, end, k))
      decreases Length(begin, end) + 2 - rayCast.mNum
    {
      cells := cells + [cur];
      over, cur := rayCast.GetNext();
    }
  }

  class JumpPointOptimizer {
    var mSize: int
    var mHead: Node?
    var mTail: Node?
    var mBegin: Node?
    var mEnd: Node?
    const map_: JpsMap
    ghost var nodes: seq<Node>

    /** All but mBegin is in order. */
    ghost predicate ListOk()
      reads this, nodes
    {
      && Linked(nodes) && AllOnMap(Positions(nodes)) && mSize == |nodes|
      && if nodes == [] then mHead == mTail == mEnd == null
         else mHead == nodes[0] && mTail == mEnd == nodes[|nodes| - 1]
    }

    /** mBegin is the last node but one. */
    ghost predicate Valid()
      reads this, nodes
    {
      ListOk() && mBegin == if |nodes| < 2 then mHead else nodes[|nodes| - 2]
    }

    constructor (m: JpsMap)
      ensures Valid() && nodes == [] && map_ == m
    {
      mSize, mHead, mTail, mBegin, mEnd, map_, nodes := 0, null, null, null, null, m, [];
    }

    method InsertNode(node: Node)
      requires Valid() && OnMap(node.position)
      modifies this, nodes
      ensures Valid() && Positions(nodes) == Fed(map_, Positions(old(nodes)), node.position)
      ensures fresh(set n | n in nodes && n !in old(nodes))
    {
      hide Sees, Positions, Linked, Fed;
      ghost var was := nodes;
      var pNode := new Node(node.position);
      FedNodes(map_, was, pNode);
      if mHead == null {
        AddFirst(pNode);
        return;
      }
      Append(pNode);
      if mSize > 2 {
        Optimize();
      }
    }

    method AddFirst(pNode: Node)
      requires pNode.pParent == null && OnMap(pNode.position)
      modifies this
      ensures Valid() && nodes == [pNode]
    {
      mHead := pNode;
      mTail := pNode;
      mEnd := pNode;
      mBegin := pNode;
      mSize := 1;
      nodes := [pNode];
    }

    method Append(pNode: Node)
      requires Valid() && nodes != [] && pNode !in nodes && pNode.pParent == null && OnMap(pNode.position)
      modifies this, nodes
      ensures ListOk() && nodes == old(nodes) + [pNode] && mBegin == old(mBegin)
    {
      mTail.pParent := pNode;
      mTail := pNode;
      mSize := mSize + 1;
      mEnd := pNode;
      nodes := nodes + [pNode];
    }

    /** Takes the last node but one out of the list if the nodes around it see each other. */
    method Optimize()
      requires ListOk() && |nodes| > 2 && mBegin == nodes[|nodes| - 3]
      modifies this, nodes
      ensures Valid()
      ensures var n := |old(nodes)|;
              nodes == if Sees(map_, old(nodes)[n - 3].position, old(nodes)[n - 1].position)
                       then old(nodes)[..n - 2] + [old(nodes)[n - 1]] else old(nodes)
    {
      hide Sees;
      var temp := mBegin.pParent;
      var free := LineIsFree(mBegin.position, mEnd.position);
      if !free {
        mBegin := temp;
        return;
      }
      mBegin.pParent := mEnd;
      mSize := mSize - 1;
      nodes := nodes[..|nodes| - 2] + [nodes[|nodes| - 1]];
    }

    method LineIsFree(begin: Cell, end: Cell) returns (free: bool)
      requires OnMap(begin) && OnMap(end)
      ensures free == Sees(map_, begin, end)
    {
      hide RayCell, Length, CRayCast.Valid;
      var rayCast := new CRayCast();
      rayCast.SetBegin(begin);
      rayCast.SetEnd(end);
      var over, cur := rayCast.GetNext();
      while !over
        invariant fresh(rayCast) && rayCast.Valid() && rayCast.mBegin == begin && rayCast.mEnd == end
        invariant 0 < rayCast.mNum <= Length(begin, end) + 2 && over == (rayCast.mNum == Length(begin, end) + 2)
        invariant cur == RayCell(begin, end, rayCast.mNum - 1)
        invariant forall k: nat :: k < rayCast.mNum - 1 ==> !IsWall(map_, RayCell(begin, end, k))
        decreases Length(begin, end) + 2 - rayCast.mNum
      {
        RayOnMap(begin, end, rayCast.mNum - 1);
        if map_[cur.y][cur.x] == WallTile {
          return false;
        }
        over, cur := rayCast.GetNext();
      }
      return true;
    }

    /** Feeds a whole chain of nodes to the empty optimizer. */
    method InsertChain(end: Node, ghost chain: seq<Node>)
      requires Valid() && nodes == []
      requires chain != [] && chain[0] == end && Linked(chain) && AllOnMap(Positions(chain))
      modifies this
      ensures Valid() && Positions(nodes) == Optimized(map_, Positions(chain))
    {
      hide Fed, Linked;
      var temp: Node? := end;
      ghost var i := 0;
      while temp != null
        invariant Valid() && Linked(chain) && 0 <= i <= |chain|
        invariant temp == if i == |chain| then null else chain[i]
        invariant fresh(nodes)
        invariant Positions(nodes) == Optimized(map_, Positions(chain)[..i])
        decreases |chain| - i
      {
        InsertNode(temp);
        assert Positions(chain)[..i + 1][..i] == Positions(chain)[..i];
        temp := NextOf(temp, chain, i);
        i := i + 1;
      }
      assert Positions(chain)[..i] == Positions(chain);
    }

    method Clear()
      requires Valid()
      modifies this
      ensures Valid() && nodes == []
    {
      mHead, mTail, mEnd, mBegin, mSize := null, null, null, null, 0;
      nodes := [];
    }
  }
}
