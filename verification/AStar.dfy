/** The search object: it owns the open list, the queue of closed nodes and the node-type
    grid, and each of its steps is proved to be the transition of module WeightedSearch. */
module AStar {
  import opened GridPaths
  import opened WeightedSearch
  import opened StraightSearch
  import opened NodeHeap

  datatype NodeType = NoneNode | OpenNode | CloseNode

  const HEAP_CAPACITY: nat := 2500
  const MAP_MAX: nat := 500

  // ----- how node objects stand for a search state -----

  /** Search state s from `begin` towards `goal`, with the node that stands for each
      generated cell, and the nodes taken from the node pool so far. */
  datatype View = View(s: Search, begin: Cell, goal: Cell, at: map<Cell, Node>, pool: set<Node>)

  /** Node at[c] stores the record of cell c, its parent pointer included. The parent
      pointer of the start is never assigned, so nothing is said about it. */
  ghost predicate NodeOk(v: View, c: Cell)
    requires c in v.at && (c in v.s.open || c in v.s.closed)
    reads v.at[c]
  {
    && v.at[c].g == RecordOf(v.s, c).g
    && v.at[c].h == H(c, v.goal)
    && v.at[c].f == F(RecordOf(v.s, c), c, v.goal)
    && (c != v.begin ==> RecordOf(v.s, c).parent in v.at && v.at[c].pParent == v.at[RecordOf(v.s, c).parent])
  }

  ghost predicate NodesOk(v: View)
    reads v.pool
  {
    && (forall c :: c in v.at <==> c in v.s.open || c in v.s.closed)
    && (forall c :: c in v.at ==> v.at[c] in v.pool && v.at[c].position == c)
    // The trigger keeps the prover from walking up the parents by itself.
    && (forall c {:trigger NodeOk(v, c)} :: c in v.at ==> NodeOk(v, c))
  }

  /** `nodes` are exactly the nodes of the cells in `cells`. */
  ghost predicate AreNodesOf(nodes: set<Node>, at: map<Cell, Node>, cells: set<Cell>)
    reads nodes
  {
    && (forall c :: c in cells ==> c in at && at[c] in nodes && at[c].position == c)
    && (forall n :: n in nodes ==> n.position in cells && n.position in at && at[n.position] == n)
  }

  /** Following pParent from chain[0] visits the chain's nodes one after the other. */
  ghost predicate ParentChain(chain: seq<Node>)
    reads chain
  {
    && |chain| >= 1
    && forall i :: 0 <= i < |chain| - 1 ==> chain[i].pParent == chain[i + 1]
  }

  /** The positions of a parent chain, start cell first. */
  ghost function Positions(chain: seq<Node>): seq<Cell>
    reads chain
  {
    if chain == [] then [] else Positions(chain[1..]) + [chain[0].position]
  }

  /** The answer of a search: a node for `end` whose parent chain is a wall-free path from
      `begin` of cost g, within 8/3 of every wall-free path. */
  ghost predicate Found(m: TileMap, begin: Cell, end: Cell, r: Node, chain: seq<Node>)
    reads r, chain
  {
    && r.position == end
    && ParentChain(chain) && chain[0] == r
    && IsPath(m, begin, end, Positions(chain))
    && r.g == Cost(Positions(chain))
    && forall p :: IsPath(m, begin, end, p) ==> 3 * r.g <= 8 * Cost(p)
  }

  /** Why a search found nothing: either `end` cannot be reached, or the whole budget
      went into reachable cells other than `end`. */
  ghost predicate GaveUp(m: TileMap, begin: Cell, end: Cell, budget: nat) {
    || !Reachable(m, begin, end)
    || exists spent: set<Cell> :: SpentOn(m, begin, end, budget, spent)
  }

  ghost predicate SpentOn(m: TileMap, begin: Cell, end: Cell, budget: nat, spent: set<Cell>) {
    && |spent| == budget && end !in spent
    && forall c :: c in spent ==> Reachable(m, begin, c) && InMap(c)
  }

  /** All cells that paths from `begin` reach. */
  ghost function Region(m: TileMap, begin: Cell): (s: set<Cell>)
    ensures forall c :: c in s <==> InMap(c) && Reachable(m, begin, c)
    ensures |s| <= MAP_WIDTH * MAP_HEIGHT
  {
    var s := set x, y | 0 <= x < MAP_WIDTH && 0 <= y < MAP_HEIGHT && Reachable(m, begin, Cell(x, y)) :: Cell(x, y);
    AtMostAllCells(s);
    s
  }

  /** A budget as large as the region round the start cannot run out before `end` is closed. */
  lemma LargeBudgetIsExact(m: TileMap, begin: Cell, end: Cell, budget: nat)
    requires InMap(end) && GaveUp(m, begin, end, budget) && |Region(m, begin)| <= budget
    ensures !Reachable(m, begin, end)
  {
    if Reachable(m, begin, end) {
      var spent :| SpentOn(m, begin, end, budget, spent);
      assert |spent + {end}| == budget + 1;
      SubsetSize(spent + {end}, Region(m, begin));
    }
  }

  /** What an answer of cost g means for the way from `begin` to `end`, whichever of the two
      searches gave it: there is a wall-free path of that cost, and 3 g is at most 8 times
      the cost of every one. A wall at `end` may be left but not entered. */
  ghost predicate Serves(m: TileMap, begin: Cell, end: Cell, g: int) {
    && (Walkable(m, end) ==> exists p :: IsPath(m, begin, end, p) && Cost(p) == g)
    && forall p :: IsPath(m, begin, end, p) ==> 3 * g <= 8 * Cost(p)
  }

  class CAStar {
    const mOpenList: MyHeap
    const mNodeType: array2<NodeType>
    var mNodeQ: seq<Node>

    ghost predicate Valid()
      reads this, mOpenList, mOpenList.mBuffer, mOpenList.nodes
    {
      && mOpenList.Valid() && mOpenList.mCapacity == HEAP_CAPACITY
      && mNodeType.Length0 == MAP_MAX && mNodeType.Length1 == MAP_MAX
    }

    ghost predicate Idle()
      reads this, mOpenList, mOpenList.mBuffer, mOpenList.nodes
    {
      Valid() && mOpenList.mSize == 0 && mNodeQ == []
    }

    constructor ()
      ensures Idle() && fresh(mOpenList) && fresh(mOpenList.mBuffer) && fresh(mNodeType)
    {
      mOpenList := new MyHeap(HEAP_CAPACITY);
      mNodeType := new NodeType[MAP_MAX, MAP_MAX]((_, _) => NoneNode);
      mNodeQ := [];
    }

    /** The object's fields hold the search state of v. */
    ghost predicate Holds(v: View)
      reads this, mOpenList, mOpenList.mBuffer, mOpenList.nodes
      reads v.pool, mNodeType
    {
      && mNodeType.Length0 == MAP_MAX && mNodeType.Length1 == MAP_MAX
      && HoldsLists(v)
      && TypesOk(v.s.open.Keys, v.s.closed.Keys)
    }

    // The part of Holds about the open list and the queue of closed nodes.
    ghost predicate HoldsLists(v: View)
      reads this, mOpenList, mOpenList.mBuffer, mOpenList.nodes, v.pool
    {
      HoldsOpen(v) && |mNodeQ| == |v.s.closed| && QueueOk(v.at, v.s.closed.Keys)
    }

    // The part of Holds about the nodes and the open list.
    ghost predicate HoldsOpen(v: View)
      reads mOpenList, mOpenList.mBuffer, mOpenList.nodes, v.pool
    {
      && mOpenList.Valid() && mOpenList.mCapacity == HEAP_CAPACITY
      && NodesOk(v)
      && AreNodesOf(mOpenList.nodes, v.at, v.s.open.Keys)
      && mOpenList.mSize == |v.s.open|
    }

    ghost predicate QueueOk(at: map<Cell, Node>, closed: set<Cell>)
      reads this`mNodeQ
    {
      forall c :: c in closed ==> c in at && at[c] in mNodeQ
    }

    ghost predicate TypesOk(open: set<Cell>, closed: set<Cell>)
      requires mNodeType.Length0 == MAP_MAX && mNodeType.Length1 == MAP_MAX
      reads mNodeType
    {
      forall x, y :: 0 <= x < MAP_WIDTH && 0 <= y < MAP_HEIGHT ==>
        mNodeType[y, x] == (if Cell(x, y) in closed then CloseNode
                            else if Cell(x, y) in open then OpenNode else NoneNode)
    }

    lemma InsertedQueueOk(at: map<Cell, Node>, closed: set<Cell>, n: Cell, next: Node)
      requires QueueOk(at, closed) && n !in closed
      ensures QueueOk(at[n := next], closed)
    {
    }

    method SetOpen(n: Cell, ghost open: set<Cell>, ghost closed: set<Cell>)
      requires mNodeType.Length0 == MAP_MAX && mNodeType.Length1 == MAP_MAX
      requires InMap(n) && TypesOk(open, closed) && n !in closed
      modifies mNodeType
      ensures TypesOk(open + {n}, closed)
    {
      mNodeType[n.y, n.x] := OpenNode;
    }

    /** Decrease-key on the open node of cell n; no other node of the search changes. */
    method UpdateOpen(n: Cell, next: Node, ghost pool: set<Node>, ghost at: map<Cell, Node>, ghost open: set<Cell>)
      requires mOpenList.Valid() && AreNodesOf(mOpenList.nodes, at, open)
      requires forall c :: c in at ==> at[c].position == c && at[c] in pool
      requires n in open && next.position == n && next !in pool
      modifies mOpenList.mBuffer, mOpenList.nodes
      ensures mOpenList.Valid() && AreNodesOf(mOpenList.nodes, at, open)
      ensures forall c :: c in at && c != n ==> SameFields(at[c])
      ensures at[n].position == n && at[n].h == old(at[n].h)
      ensures if old(at[n].f) <= old(next.f) then SameFields(at[n])
              else at[n].g == old(next.g) && at[n].f == old(next.f) && at[n].pParent == old(next.pParent)
    {
      var changed := mOpenList.UpdateNode(next);
      forall c | c in at && c != n ensures SameFields(at[c]) {
        assert c in open <==> at[c] in mOpenList.nodes;
      }
    }

    method UpdateNodes(n: Cell, next: Node, ghost v: View, ghost t: Search, ghost r: Record)
      requires mOpenList.Valid() && AreNodesOf(mOpenList.nodes, v.at, v.s.open.Keys) && NodesOk(v)
      requires n in v.s.open && n !in v.s.closed && n != v.begin
      requires t == if v.s.open[n].g <= r.g then v.s else v.s.(open := v.s.open[n := r])
      requires StandsFor(next, n, v, r)
      modifies mOpenList.mBuffer, mOpenList.nodes
      ensures mOpenList.Valid() && AreNodesOf(mOpenList.nodes, v.at, v.s.open.Keys) && NodesOk(v.(s := t))
    {
      hide AreNodesOf, MyHeap.Valid;
      UpdateOpen(n, next, v.pool, v.at, v.s.open.Keys);
      ghost var w := v.(s := t);
      forall c {:trigger NodeOk(w, c)} | c in w.at ensures NodeOk(w, c) {
        assert old(NodeOk(v, c));
      }
    }

    /** The neighbour n is open already: it keeps the smaller of the two keys. */
    method MeetOpen(next: Node, n: Cell, ghost v: View, ghost t: Search, ghost r: Record)
      requires Holds(v) && n in v.s.open && n !in v.s.closed && n != v.begin
      requires t == if v.s.open[n].g <= r.g then v.s else v.s.(open := v.s.open[n := r])
      requires StandsFor(next, n, v, r)
      modifies mOpenList.mBuffer, mOpenList.nodes
      ensures Holds(v.(s := t))
    {
      hide NodesOk, AreNodesOf, StandsFor, MyHeap.Valid;
      assert t.closed == v.s.closed && t.open.Keys == v.s.open.Keys && |t.open| == |v.s.open|;
      UpdateNodes(n, next, v, t, r);
    }

    method InsertOpen(m: TileMap, next: Node, n: Cell, ghost v: View, ghost w: View, ghost r: Record)
      requires HoldsOpen(v) && TreeOk(m, v.begin, v.s)
      requires n !in v.at && n != v.begin
      requires w == Inserted(v, n, next, r) && StandsFor(next, n, v, r)
      modifies mOpenList`mSize, mOpenList`nodes, mOpenList.mBuffer
      ensures HoldsOpen(w)
    {
      hide MyHeap.Valid, NodesOk, AreNodesOf, TreeOk;
      OpenFitsHeap(m, v.begin, v.s);
      InsertedNodesOk(v, n, next, r);
      InsertedAreNodesOf(mOpenList.nodes, v.at, v.s.open.Keys, n, next);
      assert w.s.open.Keys == v.s.open.Keys + {n} && |w.s.open| == |v.s.open| + 1;
      mOpenList.InsertData(next);
    }

    /** The neighbour n is new: it enters the open list. */
    method MeetNew(m: TileMap, next: Node, n: Cell, ghost v: View, ghost w: View, ghost r: Record)
      requires Holds(v) && TreeOk(m, v.begin, v.s)
      requires InMap(n) && n !in v.at && n != v.begin && n !in v.s.closed
      requires w == Inserted(v, n, next, r) && StandsFor(next, n, v, r)
      modifies mOpenList`mSize, mOpenList`nodes, mOpenList.mBuffer, mNodeType
      ensures Holds(w)
    {
      hide HoldsOpen, QueueOk, TypesOk, TreeOk;
      assert w.s.open.Keys == v.s.open.Keys + {n};
      InsertedQueueOk(v.at, v.s.closed.Keys, n, next);
      InsertOpen(m, next, n, v, w, r);
      SetOpen(n, v.s.open.Keys, v.s.closed.Keys);
    }

    /** What the fields say about a map cell and about the closed cell being expanded. */
    lemma Reads(v: View, n: Cell, c: Cell)
      requires Holds(v) && InMap(n) && c in v.s.closed
      ensures mNodeType.Length0 == MAP_MAX && mNodeType.Length1 == MAP_MAX
      ensures mNodeType[n.y, n.x] == CloseNode <==> n in v.s.closed
      ensures mNodeType[n.y, n.x] == OpenNode <==> n in v.s.open && n !in v.s.closed
      ensures n in v.at <==> n in v.s.open || n in v.s.closed
      ensures c in v.at && v.at[c].g == v.s.closed[c].g
      ensures mOpenList.nodes <= v.pool
    {
      assert NodeOk(v, c);
      forall x | x in mOpenList.nodes ensures x in v.pool {
        assert v.at[x.position] == x;
      }
    }

    /** One turn of the neighbour loop. */
    method RelaxNeighbour(m: TileMap, cur: Node, end: Cell, i: nat, ghost v: View)
      returns (ghost w: View)
      requires i < 8 && Holds(v) && v.goal == end && TreeOk(m, v.begin, v.s) && v.begin in v.s.closed
      requires cur.position in v.s.closed && v.at[cur.position] == cur
      modifies mOpenList`mSize, mOpenList`nodes, mOpenList.mBuffer, mNodeType, v.pool
      ensures Holds(w) && w.s == Relax(m, v.s, old(cur.position), i, end) && w.begin == v.begin && w.goal == end
      ensures forall c :: c in v.at ==> c in w.at && w.at[c] == v.at[c]
      ensures v.pool <= w.pool && fresh(w.pool - v.pool)
    {
      hide Holds, TreeOk;
      w := v;
      var nX := cur.position.x + DX[i];
      var nY := cur.position.y + DY[i];
      if nX < 0 || nY < 0 || nX >= MAP_WIDTH || nY >= MAP_HEIGHT {
        return;
      }
      var n := Cell(nX, nY);
      Reads(v, n, cur.position);
      if mNodeType[nY, nX] == CloseNode || m[nY][nX] == WallTile {
        return;
      }
      var nG := cur.g + G_WEIGHT[i];
      var nH := 4 * (Abs(nX - end.x) + Abs(nY - end.y));
      var nF := nG + nH;
      ghost var r := Record(nG, cur.position);
      var next := MakeNode(n, nG, nH, nF, cur);
      if mNodeType[nY, nX] == OpenNode {
        w := v.(s := Relax(m, v.s, cur.position, i, end));
        MeetOpen(next, n, v, w.s, r);
      } else {
        w := Inserted(v, n, next, r);
        MeetNew(m, next, n, v, w, r);
      }
    }

    /** Pops a node of least f from the open list. */
    method PopOpen(ghost v: View) returns (cur: Node?, ghost c: Cell, ghost w: View)
      requires HoldsOpen(v) && v.s.open.Keys !! v.s.closed.Keys
      modifies mOpenList`mSize, mOpenList`nodes, mOpenList.mBuffer
      ensures mOpenList.Valid()
      ensures cur == null ==> v.s.open == map[]
      ensures cur != null ==> cur.position == c && c in v.s.open && c in v.at && v.at[c] == cur
      ensures cur != null ==> w == v.(s := Close(v.s, c)) && HoldsOpen(w) && LeastOpen(v.s, c, v.goal)
    {
      hide MyHeap.Valid, NodesOk, AreNodesOf, LeastOpen;
      w, c := v, v.goal;
      ghost var nodes := mOpenList.nodes;
      cur := mOpenList.GetMin();
      if cur == null {
        return;
      }
      c := cur.position;
      w := LeastNode(v, nodes, cur);
    }

    lemma LeastNode(v: View, nodes: set<Node>, cur: Node) returns (w: View)
      requires NodesOk(v) && v.s.open.Keys !! v.s.closed.Keys && AreNodesOf(nodes, v.at, v.s.open.Keys)
      requires cur in nodes && forall n :: n in nodes ==> cur.f <= n.f
      ensures LeastOpen(v.s, cur.position, v.goal) && cur.position in v.s.open
      ensures cur.position in v.at && v.at[cur.position] == cur
      ensures w == v.(s := Close(v.s, cur.position)) && NodesOk(w)
      ensures AreNodesOf(nodes - {cur}, w.at, w.s.open.Keys) && |w.s.open| == |v.s.open| - 1
    {
      var c := cur.position;
      assert NodeOk(v, c);
      forall o | o in v.s.open ensures F(v.s.open[c], c, v.goal) <= F(v.s.open[o], o, v.goal) {
        assert NodeOk(v, o) && v.at[o] in nodes;
      }
      w := v.(s := Close(v.s, c));
      PoppedAreNodesOf(nodes, v.at, v.s.open.Keys, cur);
      ClosedNodesOk(v, c);
      assert w.s.open.Keys == v.s.open.Keys - {c};
    }

    method SetClose(n: Cell, ghost open: set<Cell>, ghost closed: set<Cell>)
      requires mNodeType.Length0 == MAP_MAX && mNodeType.Length1 == MAP_MAX
      requires InMap(n) && TypesOk(open, closed)
      modifies mNodeType
      ensures TypesOk(open - {n}, closed + {n})
    {
      mNodeType[n.y, n.x] := CloseNode;
    }

    method Enqueue(cur: Node, ghost c: Cell, ghost at: map<Cell, Node>, ghost closed: set<Cell>)
      requires QueueOk(at, closed) && c in at && at[c] == cur
      modifies this`mNodeQ
      ensures QueueOk(at, closed + {c}) && mNodeQ == old(mNodeQ) + [cur]
    {
      mNodeQ := mNodeQ + [cur];
    }

    /** Puts a node taken out of the open list into the queue of closed nodes. */
    method QueueClosed(cur: Node, ghost c: Cell, ghost v: View, ghost w: View)
      requires c in v.s.open && v.s.open.Keys !! v.s.closed.Keys && c in v.at && v.at[c] == cur
      requires w == v.(s := Close(v.s, c)) && HoldsOpen(w)
      requires |mNodeQ| == |v.s.closed| && QueueOk(v.at, v.s.closed.Keys)
      modifies this`mNodeQ
      ensures HoldsLists(w)
    {
      hide HoldsOpen, QueueOk, Close;
      CloseAddsOne(v.s, c);
      Enqueue(cur, c, v.at, v.s.closed.Keys);
    }

    /** Moves a cell of least f from the open list to the queue of closed nodes. */
    method TakeOpen(ghost v: View) returns (cur: Node?, ghost c: Cell, ghost w: View)
      requires HoldsLists(v) && v.s.open.Keys !! v.s.closed.Keys
      modifies this`mNodeQ, mOpenList`mSize, mOpenList`nodes, mOpenList.mBuffer
      ensures cur == null ==> v.s.open == map[] && mOpenList.Valid()
      ensures cur != null ==> cur.position == c && c in v.s.open && c in v.at && v.at[c] == cur
      ensures cur != null ==> w == v.(s := Close(v.s, c)) && HoldsLists(w) && LeastOpen(v.s, c, v.goal)
    {
      hide HoldsOpen, QueueOk, LeastOpen, Close, MyHeap.Valid;
      cur, c, w := PopOpen(v);
      if cur == null {
        return;
      }
      QueueClosed(cur, c, v, w);
    }

    /** Takes a cell of least f out of the open list and closes it; null when nothing is open. */
    method TakeMin(ghost v: View) returns (cur: Node?, ghost c: Cell, ghost w: View)
      requires Holds(v) && v.s.open.Keys !! v.s.closed.Keys && (forall c :: c in v.s.open ==> InMap(c))
      modifies this`mNodeQ, mOpenList`mSize, mOpenList`nodes, mOpenList.mBuffer, mNodeType
      ensures cur == null ==> v.s.open == map[] && Valid()
      ensures cur != null ==> cur.position == c && c in v.s.open && c in v.at && v.at[c] == cur
      ensures cur != null ==> w == v.(s := Close(v.s, c)) && Holds(w) && LeastOpen(v.s, c, v.goal)
    {
      hide HoldsLists, TypesOk, LeastOpen;
      CapacityOf(v);
      cur, c, w := TakeOpen(v);
      if cur == null {
        return;
      }
      assert w.s.open.Keys == v.s.open.Keys - {c} && w.s.closed.Keys == v.s.closed.Keys + {c};
      SetClose(cur.position, v.s.open.Keys, v.s.closed.Keys);
    }

    lemma CapacityOf(v: View)
      requires HoldsLists(v)
      ensures mOpenList.mCapacity == HEAP_CAPACITY
    {
    }

    /** Hands every node back to the pool; returns how many there were. */
    method Clear() returns (count: int)
      requires Valid()
      modifies this`mNodeQ, mOpenList`mSize, mOpenList`nodes, mOpenList.mBuffer
      ensures Idle() && count == |old(mNodeQ)| + old(mOpenList.mSize)
    {
      count := |mNodeQ| + mOpenList.mSize;
      while mNodeQ != []
        invariant Valid() && mOpenList.mSize == old(mOpenList.mSize) && mOpenList.mBuffer == old(mOpenList.mBuffer)
        decreases |mNodeQ|
      {
        mNodeQ := mNodeQ[1..];
      }
      while mOpenList.mSize > 0
        invariant Valid() && mNodeQ == [] && mOpenList.mBuffer == old(mOpenList.mBuffer)
        decreases mOpenList.mSize
      {
        var node := mOpenList.GetMin();
      }
    }

    lemma ClosedNode(v: View, c: Cell)
      requires Holds(v) && c in v.s.closed
      ensures c in v.at && v.at[c].position == c
    {
    }

    /** Expands the closed node `cur`: the whole neighbour loop. */
    method Expand(m: TileMap, cur: Node, end: Cell, ghost v0: View)
      returns (ghost v: View)
      requires Holds(v0) && v0.goal == end && InvDuring(m, v0.begin, v0.s, cur.position, 0)
      requires v0.at[cur.position] == cur
      modifies mOpenList`mSize, mOpenList`nodes, mOpenList.mBuffer, mNodeType, v0.pool
      ensures Holds(v) && Inv(m, v.begin, v.s) && v.begin == v0.begin && v.goal == end
      ensures v.s == RelaxAll(m, v0.s, old(cur.position), 8, end) && cur.position == old(cur.position)
      ensures v0.pool <= v.pool && fresh(v.pool - v0.pool)
    {
      hide Holds, TreeOk, AllExpandedBut, Expanded, Bounded, Inv, Relax;
      v := v0;
      ghost var c := cur.position;
      ClosedNode(v, c);
      for i := 0 to 8
        invariant Holds(v) && v.begin == v0.begin && v.goal == end && v.s == RelaxAll(m, v0.s, c, i, end)
        invariant InvDuring(m, v.begin, v.s, c, i)
        invariant cur.position == c && c in v.at && v.at[c] == cur
        invariant v0.pool <= v.pool && fresh(v.pool - v0.pool)
      {
        RelaxKeeps(m, v.begin, end, v.s, c, i);
        v := RelaxNeighbour(m, cur, end, i, v);
        ClosedNode(v, c);
      }
      InvDuringDone(m, v.begin, v.s, c);
    }

    lemma HoldsValid(v: View)
      requires Holds(v)
      ensures Valid()
    {
    }

    // The goal's node and the length of the queue when the goal was taken from open in s.
    lemma FoundAt(v: View, s: Search)
      requires Holds(v) && v.goal in s.open && v.goal !in s.closed && v.s == Close(s, v.goal)
      ensures v.goal in v.at && v.at[v.goal].g == s.open[v.goal].g && |mNodeQ| == |s.closed| + 1
    {
      assert NodeOk(v, v.goal);
      assert v.s.closed.Keys == s.closed.Keys + {v.goal};
    }

    lemma FoundChain(m: TileMap, v: View) returns (chain: seq<Node>)
      requires Holds(v) && TreeOk(m, v.begin, v.s) && Bounded(m, v.begin, v.s) && v.goal in v.s.closed
      ensures Found(m, v.begin, v.goal, v.at[v.goal], chain) && v.at[v.goal] in v.pool
      ensures forall n :: n in chain ==> n in v.pool
    {
      chain := NodeChain(m, v, v.goal);
      NodeChainOk(m, v, v.goal);
      ChainIsPath(m, v.begin, v.s, v.goal);
      assert NodeOk(v, v.goal);
    }

    method ResetTypes()
      requires mNodeType.Length0 == MAP_MAX && mNodeType.Length1 == MAP_MAX
      modifies mNodeType
      ensures TypesOk({}, {})
    {
      forall y, x | 0 <= y < MAP_MAX && 0 <= x < MAP_MAX {
        mNodeType[y, x] := NoneNode;
      }
    }

    method PushStart(node: Node, ghost v: View)
      requires mOpenList.Valid() && mOpenList.mCapacity == HEAP_CAPACITY && mOpenList.mSize == 0 && mNodeQ == []
      requires v == View(Start(v.begin), v.begin, v.goal, map[v.begin := node], {node})
      requires node.position == v.begin && node.g == 0 && node.h == node.f == H(v.begin, v.goal)
      modifies mOpenList`mSize, mOpenList`nodes, mOpenList.mBuffer
      ensures HoldsLists(v)
    {
      EmptyHeap();
      mOpenList.InsertData(node);
      assert NodeOk(v, v.begin);
    }

    lemma EmptyHeap()
      requires mOpenList.Valid() && mOpenList.mSize == 0
      ensures mOpenList.nodes == {}
    {
    }

    /** Clears the node types and opens the start cell. */
    method Begin(m: TileMap, begin: Cell, end: Cell) returns (ghost v: View)
      requires Idle() && InMap(begin)
      modifies mOpenList`mSize, mOpenList`nodes, mOpenList.mBuffer, mNodeType
      ensures Holds(v) && v.s == Start(begin) && v.begin == begin && v.goal == end && fresh(v.pool)
    {
      hide MyHeap.Valid, HoldsLists, TypesOk;
      ResetTypes();
      var h := Abs(begin.x - end.x) + Abs(begin.y - end.y);
      var node := MakeRoot(begin, 4 * h);
      v := View(Start(begin), begin, end, map[begin := node], {node});
      PushStart(node, v);
      SetOpen(begin, {}, {});
      assert v.s.open.Keys == {} + {begin} && v.s.closed.Keys == {};
    }

    /** One turn of the search loop: pop, close, and expand unless the goal was popped. */
    method Advance(m: TileMap, end: Cell, ghost v: View) returns (cur: Node?, ghost w: View)
      requires Holds(v) && v.goal == end && Inv(m, v.begin, v.s) && end !in v.s.closed
      modifies this`mNodeQ, mOpenList`mSize, mOpenList`nodes, mOpenList.mBuffer, mNodeType, v.pool
      ensures v.pool <= w.pool && fresh(w.pool - v.pool)
      ensures cur == null ==> Valid() && !Reachable(m, v.begin, end) && v.s.open == map[]
      ensures cur != null ==> Holds(w) && w.begin == v.begin && w.goal == end && TreeOk(m, w.begin, w.s)
      ensures cur != null && cur.position == end ==>
                end in w.s.closed && end in w.at && w.at[end] == cur && Bounded(m, w.begin, w.s)
      ensures cur != null && cur.position != end ==>
                Inv(m, w.begin, w.s) && |w.s.closed| == |v.s.closed| + 1 && end !in w.s.closed
      ensures cur != null ==>
                LeastOpen(v.s, cur.position, end) && cur.position in v.s.open && cur.position !in v.s.closed
      ensures cur != null && cur.position == end ==> w.s == Close(v.s, end)
      ensures cur != null && cur.position != end ==>
                w.s == RelaxAll(m, Close(v.s, cur.position), cur.position, 8, end)
    {
      hide Holds, TreeOk, AllExpandedBut, Expanded, Bounded;
      OpenCells(m, v.begin, v.s);
      ghost var c;
      cur, c, w := TakeMin(v);
      if cur == null {
        ExhaustedIsReachable(m, v.begin, v.s, end);
        w := v;
        return;
      }
      CloseKeeps(m, v.begin, end, v.s, c);
      assert |w.s.closed| == |v.s.closed| + 1;
      if cur.position == end {
        ClosedNode(w, c);
        return;
      }
      w := Expand(m, cur, end, w);
    }

    /** One search, with its step budget. The node types are reset first, but the open
        list and the queue must have been emptied by Clear after the previous search. */
    method SearchHelper(m: TileMap, begin: Cell, end: Cell, reverse: bool)
      returns (found: Node?, ghost chain: seq<Node>)
      requires Idle() && InMap(begin)
      modifies this`mNodeQ, mOpenList`mSize, mOpenList`nodes, mOpenList.mBuffer, mNodeType
      ensures Valid()
      ensures found != null ==>
                fresh(found) && (forall n :: n in chain ==> fresh(n)) && Found(m, begin, end, found, chain)
      ensures found == null ==>
                && Idle()
                && GaveUp(m, begin, end, if reverse then 100 * Manhattan(begin, end) else 2 * Manhattan(begin, end))
      ensures begin == end ==> found == null
      ensures FreeBox(m, begin, end) && begin != end ==>
                found != null && found.g == Octile(begin, end) && |mNodeQ| <= Manhattan(begin, end) + 1
    {
      hide Holds, Inv, TreeOk, Bounded, Found, MyHeap.Valid, FreeBox, Course, Octile, LeastOpen, RelaxAll, Close;
      ghost var v := Begin(m, begin, end);
      StartKeeps(m, begin);
      CourseStarts(m, begin, end);
      var h := Manhattan(begin, end);
      var changeDirectionStand := if reverse then h * 100 else h * 2;
      var count := 0;
      chain := [];
      found := null;
      while count < changeDirectionStand
        invariant Holds(v) && v.begin == begin && v.goal == end && fresh(v.pool)
        invariant Inv(m, begin, v.s) && Course(m, begin, end, v.s)
        invariant count <= changeDirectionStand && |v.s.closed| == count && end !in v.s.closed
      {
        count := count + 1;
        var cur;
        ghost var s := v.s;
        if FreeBox(m, begin, end) {
          CourseTells(m, begin, end, s);
        }
        cur, v := Advance(m, end, v);
        if cur == null {
          var _ := Clear();
          return;
        }
        if cur.position == end {
          HoldsValid(v);
          chain := FoundChain(m, v);
          found := cur;
          FoundAt(v, s);
          return;
        }
        CourseKeeps(m, begin, end, s, cur.position);
      }
      if FreeBox(m, begin, end) {
        CourseTells(m, begin, end, v.s);
      }
      SpentBudget(m, begin, end, v.s, count);
      HoldsValid(v);
      var _ := Clear();
    }

    /** Searches forward with a small budget and, if that fails, backward with a large one.
        Between walkable cells the answer is exact if the region of the end has no more
        cells than the large budget, hence if they are at least 24 apart; a search from a
        cell to itself never finds it. */
    method SearchDestination(m: TileMap, begin: Cell, end: Cell)
      returns (found: Node?, ghost chain: seq<Node>, ghost reversed: bool)
      requires Idle() && InMap(begin) && InMap(end)
      modifies this`mNodeQ, mOpenList`mSize, mOpenList`nodes, mOpenList.mBuffer, mNodeType
      ensures Valid() && (found == null ==> Idle())
      ensures found != null && !reversed ==> Found(m, begin, end, found, chain)
      ensures found != null && reversed ==> Found(m, end, begin, found, chain)
      ensures found != null ==> Serves(m, begin, end, found.g)
      ensures found == null ==>
                GaveUp(m, begin, end, 2 * Manhattan(begin, end)) && GaveUp(m, end, begin, 100 * Manhattan(begin, end))
      ensures begin == end ==> found == null
      ensures FreeBox(m, begin, end) && begin != end ==> found != null && !reversed && found.g == Octile(begin, end)
      ensures Walkable(m, begin) && Walkable(m, end) &&
              (|Region(m, end)| <= 100 * Manhattan(begin, end) || Manhattan(begin, end) >= 24) ==>
                (found != null <==> Reachable(m, begin, end))
    {
      hide Found, GaveUp, Serves, Reachable, FreeBox, Octile;
      reversed := false;
      found, chain := SearchHelper(m, begin, end, false);
      if found != null {
        FoundServes(m, begin, end, found, chain);
        return;
      }
      reversed := true;
      found, chain := SearchHelper(m, end, begin, true);
      if found != null {
        FoundBackwardServes(m, begin, end, found, chain);
      } else {
        if Walkable(m, begin) && (|Region(m, end)| <= 100 * Manhattan(begin, end) || Manhattan(begin, end) >= 24) {
          BackwardIsExact(m, begin, end);
        }
      }
    }
  }

  lemma FoundServes(m: TileMap, begin: Cell, end: Cell, found: Node, chain: seq<Node>)
    requires Found(m, begin, end, found, chain)
    ensures Serves(m, begin, end, found.g) && Reachable(m, begin, end)
  {
  }

  /** The backward search answers the forward question. */
  lemma FoundBackwardServes(m: TileMap, begin: Cell, end: Cell, found: Node, chain: seq<Node>)
    requires Found(m, end, begin, found, chain) && begin != end
    ensures Serves(m, begin, end, found.g) && (Walkable(m, end) ==> Reachable(m, begin, end))
  {
    var back := Positions(chain);
    if Walkable(m, end) {
      PathReverse(m, end, begin, back);
      assert IsPath(m, begin, end, Reversed(back));
    }
    forall p | IsPath(m, begin, end, p) ensures 3 * found.g <= 8 * Cost(p) {
      PathReverse(m, begin, end, p);
    }
  }

  /** If the large budget covers the region of the end, nothing found means no way. */
  lemma BackwardIsExact(m: TileMap, begin: Cell, end: Cell)
    requires InMap(begin) && InMap(end) && Walkable(m, begin)
    requires GaveUp(m, end, begin, 100 * Manhattan(begin, end))
    requires |Region(m, end)| <= 100 * Manhattan(begin, end) || Manhattan(begin, end) >= 24
    ensures !Reachable(m, begin, end)
  {
    hide GaveUp;
    LargeBudgetIsExact(m, end, begin, 100 * Manhattan(begin, end));
    if Reachable(m, begin, end) {
      var p :| IsPath(m, begin, end, p);
      PathReverse(m, begin, end, p);
    }
  }

  /** A node outside the pool that carries record r for cell n. */
  ghost predicate StandsFor(next: Node, n: Cell, v: View, r: Record)
    reads next
  {
    && next !in v.pool && next.position == n
    && next.g == r.g && next.h == H(n, v.goal) && next.f == F(r, n, v.goal)
    && r.parent in v.at && next.pParent == v.at[r.parent]
  }

  ghost function Inserted(v: View, n: Cell, next: Node, r: Record): View {
    v.(s := v.s.(open := v.s.open[n := r]), at := v.at[n := next], pool := v.pool + {next})
  }

  twostate predicate SameFields(n: Node)
    reads n
  {
    n.position == old(n.position) && n.g == old(n.g) && n.h == old(n.h) && n.f == old(n.f) &&
    n.pParent == old(n.pParent)
  }

  lemma InsertedNodesOk(v: View, n: Cell, next: Node, r: Record)
    requires NodesOk(v) && n !in v.at && n != v.begin && StandsFor(next, n, v, r)
    ensures NodesOk(Inserted(v, n, next, r))
    ensures n !in v.s.open && n !in v.s.closed
  {
    var w := Inserted(v, n, next, r);
    forall c {:trigger NodeOk(w, c)} | c in w.at ensures NodeOk(w, c) {
      if c in v.at {
        assert NodeOk(v, c);
      }
    }
  }

  lemma InsertedAreNodesOf(nodes: set<Node>, at: map<Cell, Node>, cells: set<Cell>, n: Cell, next: Node)
    requires AreNodesOf(nodes, at, cells) && n !in at && next.position == n
    ensures AreNodesOf(nodes + {next}, at[n := next], cells + {n}) && next !in nodes
  {
  }

  lemma CloseAddsOne(s: Search, c: Cell)
    requires c in s.open && s.open.Keys !! s.closed.Keys
    ensures Close(s, c).closed.Keys == s.closed.Keys + {c} && |Close(s, c).closed| == |s.closed| + 1
  {
    assert Close(s, c).closed.Keys == s.closed.Keys + {c};
  }

  lemma ClosedNodesOk(v: View, c: Cell)
    requires NodesOk(v) && c in v.s.open && c !in v.s.closed
    ensures NodesOk(v.(s := Close(v.s, c)))
  {
    var w := v.(s := Close(v.s, c));
    forall d {:trigger NodeOk(w, d)} | d in w.at ensures NodeOk(w, d) {
      assert NodeOk(v, d);
    }
  }

  lemma PoppedAreNodesOf(nodes: set<Node>, at: map<Cell, Node>, cells: set<Cell>, n: Node)
    requires AreNodesOf(nodes, at, cells) && n in nodes
    ensures n.position in cells && at[n.position] == n
    ensures AreNodesOf(nodes - {n}, at, cells - {n.position})
  {
  }

  lemma OpenCells(m: TileMap, begin: Cell, s: Search)
    requires Inv(m, begin, s)
    ensures s.open.Keys !! s.closed.Keys && forall c :: c in s.open ==> InMap(c) && c !in s.closed
  {
    forall c | c in s.open ensures InMap(c) {
      GeneratedAreReachable(m, begin, s, c);
    }
  }

  lemma SpentBudget(m: TileMap, begin: Cell, end: Cell, s: Search, budget: nat)
    requires Inv(m, begin, s) && |s.closed| == budget && end !in s.closed
    ensures GaveUp(m, begin, end, budget)
  {
    forall c | c in s.closed ensures Reachable(m, begin, c) && InMap(c) {
      GeneratedAreReachable(m, begin, s, c);
    }
    assert SpentOn(m, begin, end, budget, s.closed.Keys);
  }

  /** The nodes met by following pParent from the node of cell c. */
  ghost function NodeChain(m: TileMap, v: View, c: Cell): (chain: seq<Node>)
    requires NodesOk(v) && TreeOk(m, v.begin, v.s) && c in v.at
    reads v.pool
    ensures forall n :: n in chain ==> n in v.pool
    decreases RecordOf(v.s, c).g
  {
    if c == v.begin then [v.at[c]]
    else
      assert LinkOk(m, v.s, c);
      [v.at[c]] + NodeChain(m, v, RecordOf(v.s, c).parent)
  }

  lemma {:induction false} NodeChainOk(m: TileMap, v: View, c: Cell)
    requires NodesOk(v) && TreeOk(m, v.begin, v.s) && c in v.at
    ensures var chain := NodeChain(m, v, c);
      |chain| >= 1 && chain[0] == v.at[c] && ParentChain(chain) && Positions(chain) == Chain(m, v.begin, v.s, c)
    decreases RecordOf(v.s, c).g
  {
    assert NodeOk(v, c);
    var chain := NodeChain(m, v, c);
    if c == v.begin {
      assert chain[1..] == [];
    } else {
      assert LinkOk(m, v.s, c);
      var parent := RecordOf(v.s, c).parent;
      NodeChainOk(m, v, parent);
      assert chain[1..] == NodeChain(m, v, parent);
    }
  }
}
