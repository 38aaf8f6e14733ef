/** The two paint-bucket programs: one recursive, one with a stack of its own. Both recolour
    the 4-connected component of the start cell. */
module FloodFill {
  import opened GridPaths

  // The neighbours in the order of the tables dx and dy.
  function Adjoining(c: Cell, i: nat): Cell
    requires i < 4
  {
    if i == 0 then Cell(c.x, c.y - 1)
    else if i == 1 then Cell(c.x + 1, c.y)
    else if i == 2 then Cell(c.x, c.y + 1)
    else Cell(c.x - 1, c.y)
  }

  ghost predicate Beside(a: Cell, b: Cell) {
    (a.x == b.x && (a.y == b.y + 1 || b.y == a.y + 1)) || (a.y == b.y && (a.x == b.x + 1 || b.x == a.x + 1))
  }

  lemma NeighboursAreBeside(a: Cell, b: Cell)
    ensures Beside(a, b) <==> exists i: nat :: i < 4 && b == Adjoining(a, i)
  {
    if Beside(a, b) {
      var i := if b.y < a.y then 0 else if b.x > a.x then 1 else if b.y > a.y then 2 else 3;
      assert b == Adjoining(a, i);
    }
  }

  /** The colours of the cells of a grid; all other cells are off the grid. */
  type Picture = map<Cell, char>

  /** A walk over cells of one colour that were not visited before. */
  ghost predicate Walk(p: Picture, visited: set<Cell>, path: seq<Cell>) {
    && path != [] && path[0] in p
    && (forall k :: 0 <= k < |path| ==> path[k] in p && path[k] !in visited && p[path[k]] == p[path[0]])
    && forall k :: 0 <= k < |path| - 1 ==> Beside(path[k], path[k + 1])
  }

  ghost predicate Joined(p: Picture, visited: set<Cell>, a: Cell, b: Cell) {
    exists path :: Walk(p, visited, path) && path[0] == a && path[|path| - 1] == b
  }

  /** All cells that walks from `a` reach; none when `a` is off the grid or visited. */
  ghost function Component(p: Picture, visited: set<Cell>, a: Cell): (s: set<Cell>)
    ensures forall b :: b in s <==> Joined(p, visited, a, b)
  {
    assert forall b :: Joined(p, visited, a, b) ==> b in p;
    set b | b in p && Joined(p, visited, a, b)
  }

  ghost function Recoloured(p: Picture, s: set<Cell>, ch: char): Picture {
    map c | c in p :: if c in s then ch else p[c]
  }

  /** What the walk from `a` that reached b says about b, and how it goes on from b. */
  lemma JoinedGoesOn(p: Picture, visited: set<Cell>, a: Cell, b: Cell, c: Cell)
    requires Joined(p, visited, a, b)
    ensures a in p && b in p && b !in visited && p[b] == p[a]
    ensures c in p && c !in visited && p[c] == p[b] && Beside(b, c) ==> Joined(p, visited, a, c)
  {
    var path :| Walk(p, visited, path) && path[0] == a && path[|path| - 1] == b;
    if c in p && c !in visited && p[c] == p[b] && Beside(b, c) {
      var longer := path + [c];
      assert Walk(p, visited, longer) && longer[0] == a && longer[|longer| - 1] == c;
    }
  }

  lemma JoinedToItself(p: Picture, visited: set<Cell>, a: Cell)
    requires a in p && a !in visited
    ensures Joined(p, visited, a, a)
  {
    assert Walk(p, visited, [a]);
  }

  /** No same-coloured unvisited neighbour of a cell of s is outside s. */
  ghost predicate Closed(p: Picture, visited: set<Cell>, s: set<Cell>) {
    forall b, c :: b in s && Beside(b, c) && b in p && c in p && c !in visited && p[c] == p[b] ==> c in s
  }

  /** A closed set of reached cells that holds the start is the whole component. */
  lemma ClosedIsComponent(p: Picture, visited: set<Cell>, a: Cell, s: set<Cell>)
    requires Closed(p, visited, s) && s <= Component(p, visited, a)
    requires a in p && a !in visited ==> a in s
    ensures s == Component(p, visited, a)
  {
    forall b | b in Component(p, visited, a) ensures b in s {
      var path :| Walk(p, visited, path) && path[0] == a && path[|path| - 1] == b;
      WalkStaysIn(p, visited, path, s, |path| - 1);
    }
  }

  lemma {:induction false} WalkStaysIn(p: Picture, visited: set<Cell>, path: seq<Cell>, s: set<Cell>, k: nat)
    requires Walk(p, visited, path) && Closed(p, visited, s) && path[0] in s && k < |path|
    ensures path[k] in s
  {
    if k > 0 {
      WalkStaysIn(p, visited, path, s, k - 1);
      assert Beside(path[k - 1], path[k - 1 + 1]);
    }
  }

  /** Cells visited later and recoloured cells do not matter to what is reached around them. */
  lemma JoinedAround(p: Picture, visited: set<Cell>, p': Picture, visited': set<Cell>, a: Cell, b: Cell)
    requires Joined(p', visited', a, b) && visited <= visited'
    requires p'.Keys == p.Keys && forall c :: c in p && c !in visited' ==> p'[c] == p[c]
    ensures Joined(p, visited, a, b) && Joined(p, visited', a, b)
  {
    var path :| Walk(p', visited', path) && path[0] == a && path[|path| - 1] == b;
    assert Walk(p, visited, path) && Walk(p, visited', path);
  }

  /** With nothing visited yet, any cell of a component can be the start. */
  lemma AnyStartWillDo(p: Picture, a: Cell, b: Cell)
    requires b in Component(p, {}, a)
    ensures Component(p, {}, b) == Component(p, {}, a)
  {
    JoinedGoesOn(p, {}, a, b, b);
    var s := Component(p, {}, a);
    JoinedBack(p, a, b);
    forall c, d | c in s && Beside(c, d) && c in p && d in p && d !in {} && p[d] == p[c] ensures d in s {
      JoinedGoesOn(p, {}, a, c, d);
    }
    forall c | c in s ensures Joined(p, {}, b, c) {
      JoinedThrough(p, {}, b, a, c);
    }
    ClosedIsComponent(p, {}, b, s);
  }

  lemma JoinedBack(p: Picture, a: Cell, b: Cell)
    requires Joined(p, {}, a, b)
    ensures Joined(p, {}, b, a)
  {
    var path :| Walk(p, {}, path) && path[0] == a && path[|path| - 1] == b;
    var n := |path|;
    var back := seq(n, k requires 0 <= k < n => path[n - 1 - k]);
    forall k | 0 <= k < n - 1 ensures Beside(back[k], back[k + 1]) {
      assert Beside(path[n - 2 - k], path[n - 2 - k + 1]);
    }
    assert Walk(p, {}, back);
  }

  /** Either program, started at `a` on picture p0 with the cells of before visited, part of the
      way: p is the picture now, `todo` the cells that wait on the stack, and `open` the
      visited cells whose neighbours are not all looked at, which are not recoloured yet. */
  ghost predicate Progress(p0: Picture, before: set<Cell>, a: Cell, ch: char,
                           p: Picture, visited: set<Cell>, todo: seq<Cell>, open: set<Cell>) {
    && before <= visited && open <= visited - before <= Component(p0, before, a)
    && p == Recoloured(p0, visited - before - open, ch)
    && (forall t :: t in todo ==> t !in p0 || t in visited || t in Component(p0, before, a))
    && (forall b, c :: b in visited - before - open && Beside(b, c) && b in p0 && c in p0 && p0[c] == p0[b]
          ==> c in visited || c in todo)
    && (a in p0 && a !in before ==> a in visited || a in todo)
  }

  /** The first i neighbours of `cur` are visited or wait on the stack, if they have its colour. */
  ghost predicate LookedAt(p0: Picture, visited: set<Cell>, todo: seq<Cell>, cur: Cell, i: nat)
    requires i <= 4
  {
    forall j: nat :: j < i ==> var n := Adjoining(cur, j);
      cur in p0 && n in p0 && p0[n] == p0[cur] ==> n in visited || n in todo
  }

  lemma Start(p0: Picture, before: set<Cell>, a: Cell, ch: char)
    requires a in p0 && a !in before
    ensures Progress(p0, before, a, ch, p0, before + {a}, [], {a}) && LookedAt(p0, before + {a}, [], a, 0)
  {
    JoinedToItself(p0, before, a);
    assert before + {a} - before - {a} == {};
  }

  lemma Begin(p0: Picture, before: set<Cell>, a: Cell, ch: char)
    ensures Progress(p0, before, a, ch, p0, before, [a], {})
  {
    assert before - before - {} == {};
    if a in p0 && a !in before {
      JoinedToItself(p0, before, a);
    }
  }

  lemma NothingLookedAt(p0: Picture, visited: set<Cell>, todo: seq<Cell>, cur: Cell)
    ensures LookedAt(p0, visited, todo, cur, 0)
  {
  }

  /** The recursive program passes over a neighbour. */
  lemma SkipNeighbour(p0: Picture, before: set<Cell>, a: Cell, ch: char,
                      p: Picture, visited: set<Cell>, cur: Cell, i: nat)
    requires Progress(p0, before, a, ch, p, visited, [], {cur}) && i < 4 && LookedAt(p0, visited, [], cur, i)
    requires var n := Adjoining(cur, i); cur in p && n in p ==> n in visited || p[n] != p[cur]
    ensures LookedAt(p0, visited, [], cur, i + 1)
  {
  }

  /** The recursive program paints the component of a neighbour, avoiding all visited cells. */
  lemma SubComponent(p0: Picture, before: set<Cell>, a: Cell, ch: char,
                     p: Picture, visited: set<Cell>, cur: Cell, i: nat)
    requires Progress(p0, before, a, ch, p, visited, [], {cur}) && i < 4 && LookedAt(p0, visited, [], cur, i)
    requires var n := Adjoining(cur, i); cur in p && n in p && n !in visited && p[n] == p[cur]
    ensures var more := Component(p, visited, Adjoining(cur, i));
            && Progress(p0, before, a, ch, Recoloured(p, more, ch), visited + more, [], {cur})
            && LookedAt(p0, visited + more, [], cur, i + 1)
  {
    hide Joined;
    var n := Adjoining(cur, i);
    var more := Component(p, visited, n);
    forall b | b in more ensures b in Component(p0, before, a) && b !in visited {
      JoinedGoesOn(p, visited, n, b, b);
      JoinedAround(p0, before, p, visited, n, b);
      JoinedGoesOn(p0, before, a, cur, n);
      JoinedThrough(p0, before, a, n, b);
    }
    forall b, c | b in more && Beside(b, c) && c in p0 && p0[c] == p0[b] ensures c in visited + more {
      JoinedGoesOn(p, visited, n, b, c);
    }
    JoinedToItself(p, visited, n);
    assert visited + more - before - {cur} == (visited - before - {cur}) + more;
  }

  lemma JoinedThrough(p: Picture, visited: set<Cell>, a: Cell, b: Cell, c: Cell)
    requires Joined(p, visited, a, b) && Joined(p, visited, b, c)
    ensures Joined(p, visited, a, c)
  {
    var path :| Walk(p, visited, path) && path[0] == a && path[|path| - 1] == b;
    var more :| Walk(p, visited, more) && more[0] == b && more[|more| - 1] == c;
    var all := path + more[1..];
    forall k | 0 <= k < |all| - 1 ensures Beside(all[k], all[k + 1]) {
      if k >= |path| - 1 {
        assert Beside(more[k - (|path| - 1)], more[k - (|path| - 1) + 1]);
      }
    }
    assert Walk(p, visited, all);
  }

  /** The stack program looks at a neighbour; what it reads off the grid does not matter. */
  lemma PushSeen(p0: Picture, before: set<Cell>, a: Cell, ch: char,
                 p: Picture, visited: set<Cell>, todo: seq<Cell>, cur: Cell, i: nat, pushed: bool)
    requires Progress(p0, before, a, ch, p, visited, todo, {cur}) && i < 4 && LookedAt(p0, visited, todo, cur, i)
    requires var n := Adjoining(cur, i); cur in p && n in p ==> pushed == (p[n] == p[cur])
    ensures var todo' := if pushed then todo + [Adjoining(cur, i)] else todo;
            && Progress(p0, before, a, ch, p, visited, todo', {cur})
            && LookedAt(p0, visited, todo', cur, i + 1)
  {
    var n := Adjoining(cur, i);
    JoinedGoesOn(p0, before, a, cur, n);
    NeighboursAreBeside(cur, n);
  }

  /** All neighbours of `cur` looked at, it is recoloured. */
  lemma Recolouring(p0: Picture, before: set<Cell>, a: Cell, ch: char,
                    p: Picture, visited: set<Cell>, todo: seq<Cell>, cur: Cell)
    requires Progress(p0, before, a, ch, p, visited, todo, {cur}) && LookedAt(p0, visited, todo, cur, 4) && cur in p
    ensures Progress(p0, before, a, ch, p[cur := ch], visited, todo, {})
  {
    forall c | Beside(cur, c) && c in p0 && p0[c] == p0[cur] ensures c in visited || c in todo {
      NeighboursAreBeside(cur, c);
    }
    assert visited - before - {} == (visited - before - {cur}) + {cur};
  }

  /** A cell is taken off the stack and, unless it was visited or off the grid, visited. */
  lemma PopSeen(p0: Picture, before: set<Cell>, a: Cell, ch: char, p: Picture, visited: set<Cell>, todo: seq<Cell>)
    requires Progress(p0, before, a, ch, p, visited, todo, {}) && todo != []
    ensures var cur, rest := todo[|todo| - 1], todo[..|todo| - 1];
            if cur !in p || cur in visited then Progress(p0, before, a, ch, p, visited, rest, {})
            else Progress(p0, before, a, ch, p, visited + {cur}, rest, {cur})
  {
    var cur, rest := todo[|todo| - 1], todo[..|todo| - 1];
    assert todo == rest + [cur];
    if cur in p0 && cur !in visited {
      assert visited + {cur} - before - {cur} == visited - before - {};
    }
  }

  lemma Finished(p0: Picture, before: set<Cell>, a: Cell, ch: char, p: Picture, visited: set<Cell>)
    requires Progress(p0, before, a, ch, p, visited, [], {})
    ensures visited == before + Component(p0, before, a)
    ensures Count(visited, before) == |Component(p0, before, a)| <= |p0.Keys|
    ensures p == Recoloured(p0, Component(p0, before, a), ch)
  {
    hide Recoloured, Joined;
    var s := visited - before;
    assert s - {} == s && before + s == visited;
    ClosedIsComponent(p0, before, a, s);
    ComponentBound(p0, before, a);
  }

  lemma ComponentBound(p: Picture, visited: set<Cell>, a: Cell)
    ensures |Component(p, visited, a)| <= |p.Keys|
  {
    forall b | b in Component(p, visited, a) ensures b in p {
      JoinedGoesOn(p, visited, a, b, b);
    }
    SubsetSize(Component(p, visited, a), p.Keys);
  }

  ghost function Count(visited: set<Cell>, before: set<Cell>): nat {
    |visited - before|
  }

  lemma OneMore(grid: set<Cell>, visited: set<Cell>, before: set<Cell>, cur: Cell)
    requires before <= visited <= grid && cur in grid && cur !in visited
    ensures Count(visited + {cur}, before) == Count(visited, before) + 1 <= |grid|
  {
    assert visited + {cur} - before == (visited - before) + {cur};
    SubsetSize(visited + {cur} - before, grid);
  }

  /** The global variables of the two programs. */
  class Canvas {
    const mWidth: nat
    const mHeight: nat
    const arr: array2<char>
    const visit: array2<bool>
    var g_ch: char
    const g_stack: array<Cell>
    var g_top: int
    ghost var pushed: nat // how often a cell was pushed so far

    predicate InGrid(c: Cell) {
      0 <= c.x < mWidth && 0 <= c.y < mHeight
    }

    ghost function Grid(): (s: set<Cell>)
      ensures forall c :: c in s <==> InGrid(c)
    {
      Rectangle(mWidth, mHeight)
    }

    lemma GridSize()
      ensures |Grid()| == mWidth * mHeight
    {
    }

    ghost predicate Shape() {
      arr.Length0 == visit.Length0 == mHeight && arr.Length1 == visit.Length1 == mWidth
    }

    /** The stack has room for the start and for four cells per cell of the grid. */
    ghost predicate Valid()
      reads this
    {
      Shape() && g_stack.Length >= 1 + 4 * |Grid()| && -1 <= g_top < g_stack.Length
    }

    /** The sizes of the two programs: 10 x 10 cells and a stack of 1000. */
    constructor (pixels: Cell -> char)
      ensures arr.Length0 == arr.Length1 == 10
      ensures forall x, y :: 0 <= x < 10 && 0 <= y < 10 ==> arr[y, x] == pixels(Cell(x, y))
      ensures fresh(arr) && fresh(visit) && fresh(g_stack)
      ensures mWidth == mHeight == 10 && g_stack.Length == 1000 && g_top == -1 && pushed == 0
      ensures Valid() && Visited() == {}
    {
      hide Rectangle;
      mWidth, mHeight := 10, 10;
      arr := new char[10, 10]((y, x) => pixels(Cell(x, y)));
      visit := new bool[10, 10]((_, _) => false);
      g_stack := new Cell[1000](_ => Cell(0, 0));
      g_top, pushed := -1, 0;
      new;
      GridSize();
    }

    ghost function Colours(): (p: Picture)
      requires Shape()
      reads arr
      ensures p.Keys == Grid() && forall c :: InGrid(c) ==> p[c] == arr[c.y, c.x]
    {
      map c | c in Grid() :: arr[c.y, c.x]
    }

    ghost function Visited(): (s: set<Cell>)
      requires Shape()
      reads visit
      ensures s <= Grid() && forall c :: c in s <==> InGrid(c) && visit[c.y, c.x]
    {
      set c | c in Grid() && visit[c.y, c.x]
    }

    ghost function Left(visited: set<Cell>): set<Cell> {
      Grid() - visited
    }

    // The cells on the stack, the top one last.
    ghost function Stack(): (s: seq<Cell>)
      requires Valid()
      reads this, g_stack
      ensures |s| == g_top + 1
    {
      g_stack[..g_top + 1]
    }

    /** Marks a cell of the grid as visited. */
    method Visit(x: int, y: int)
      requires Shape() && InGrid(Cell(x, y)) && !visit[y, x]
      modifies visit
      ensures Visited() == old(Visited()) + {Cell(x, y)} && Left(Visited()) < old(Left(Visited()))
    {
      visit[y, x] := true;
    }

    method SetColour(x: int, y: int)
      requires Shape() && InGrid(Cell(x, y))
      modifies arr
      ensures Colours() == old(Colours())[Cell(x, y) := g_ch]
    {
      arr[y, x] := g_ch;
    }

    /** The recursive program. */
    method Paint(x: int, y: int)
      requires Shape() && InGrid(Cell(x, y)) && !visit[y, x]
      modifies arr, visit
      ensures Visited() == old(Visited()) + Component(old(Colours()), old(Visited()), Cell(x, y))
      ensures Colours() == Recoloured(old(Colours()), Component(old(Colours()), old(Visited()), Cell(x, y)), g_ch)
      decreases Left(Visited())
    {
      hide Component, Recoloured, Progress, LookedAt, Grid;
      ghost var p0, before, c := Colours(), Visited(), Cell(x, y);
      Visit(x, y);
      Start(p0, before, c, g_ch);
      for i: nat := 0 to 4
        invariant before + {c} <= Visited()
        invariant Progress(p0, before, c, g_ch, Colours(), Visited(), [], {c})
        invariant LookedAt(p0, Visited(), [], c, i)
      {
        var n := Adjoining(Cell(x, y), i);
        if !InGrid(n) || visit[n.y, n.x] {
          SkipNeighbour(p0, before, c, g_ch, Colours(), Visited(), c, i);
        } else if arr[n.y, n.x] == arr[y, x] {
          SubComponent(p0, before, c, g_ch, Colours(), Visited(), c, i);
          Paint(n.x, n.y);
        } else {
          SkipNeighbour(p0, before, c, g_ch, Colours(), Visited(), c, i);
        }
      }
      Recolouring(p0, before, c, g_ch, Colours(), Visited(), [], c);
      SetColour(x, y);
      Finished(p0, before, c, g_ch, Colours(), Visited());
    }

    /** The program with its own stack. At most four cells are pushed for every cell visited,
        besides the first. */
    method PaintStack2(begin: Cell)
      requires Valid() && g_top == -1
      modifies this`g_top, this`pushed, g_stack, arr, visit
      ensures Valid() && g_top == -1
      ensures Visited() == old(Visited()) + Component(old(Colours()), old(Visited()), begin)
      ensures Colours() == Recoloured(old(Colours()), Component(old(Colours()), old(Visited()), begin), g_ch)
      ensures pushed - old(pushed) <= 1 + 4 * |Component(old(Colours()), old(Visited()), begin)|
      ensures |Component(old(Colours()), old(Visited()), begin)| <= mWidth * mHeight
    {
      hide Component, Recoloured, Progress, LookedAt, Count, Left;
      ghost var p0, before, start := Colours(), Visited(), pushed;
      Push(begin);
      Begin(p0, before, begin, g_ch);
      assert Stack() == [begin];
      hide Stack;
      while g_top > -1
        invariant Valid() && before <= Visited()
        invariant Progress(p0, before, begin, g_ch, Colours(), Visited(), Stack(), {})
        invariant g_top + 1 <= pushed - start <= 1 + 4 * Count(Visited(), before)
        decreases Left(Visited()), g_top
      {
        PopSeen(p0, before, begin, g_ch, Colours(), Visited(), Stack());
        var cur := Pop();
        if !InGrid(cur) || visit[cur.y, cur.x] {
          continue;
        }
        PaintCell(cur, p0, before, begin, start);
      }
      Finished(p0, before, begin, g_ch, Colours(), Visited());
      GridSize();
    }

    /** What the loop does with a cell not visited before. */
    method PaintCell(cur: Cell, ghost p0: Picture, ghost before: set<Cell>, ghost begin: Cell, ghost start: nat)
      requires Valid() && InGrid(cur) && !visit[cur.y, cur.x] && before <= Visited()
      requires Progress(p0, before, begin, g_ch, Colours(), Visited() + {cur}, Stack(), {cur})
      requires g_top + 1 <= pushed - start <= 1 + 4 * Count(Visited(), before)
      modifies this`g_top, this`pushed, g_stack, arr, visit
      ensures Valid() && Visited() == old(Visited()) + {cur} && Left(Visited()) < old(Left(Visited()))
      ensures Progress(p0, before, begin, g_ch, Colours(), Visited(), Stack(), {})
      ensures g_top + 1 <= pushed - start <= 1 + 4 * Count(Visited(), before)
    {
      hide Component, Recoloured, Progress, LookedAt, Count, Grid, Left, Stack;
      OneMore(Grid(), Visited(), before, cur);
      Visit(cur.x, cur.y);
      PushAround(cur, p0, before, begin, start);
      Recolouring(p0, before, begin, g_ch, Colours(), Visited(), Stack(), cur);
      SetColour(cur.x, cur.y);
    }

    method Push(c: Cell)
      requires Valid() && g_top + 1 < g_stack.Length
      modifies this`g_top, this`pushed, g_stack
      ensures Valid() && Stack() == old(Stack()) + [c] && pushed == old(pushed) + 1
    {
      g_top := g_top + 1;
      g_stack[g_top] := c;
      pushed := pushed + 1;
    }

    method Pop() returns (c: Cell)
      requires Valid() && g_top > -1
      modifies this`g_top
      ensures Valid() && old(Stack()) == Stack() + [c]
    {
      c := g_stack[g_top];
      g_top := g_top - 1;
    }

    /** Pushes the neighbours that seem to have the colour of `cur`; off the grid the program
        reads some value or other. */
    method PushAround(cur: Cell, ghost p0: Picture, ghost before: set<Cell>, ghost begin: Cell, ghost start: nat)
      requires Valid() && InGrid(cur) && cur in Visited()
      requires Progress(p0, before, begin, g_ch, Colours(), Visited(), Stack(), {cur})
      requires g_top + 1 <= pushed - start && pushed - start + 4 <= g_stack.Length
      modifies this`g_top, this`pushed, g_stack
      ensures Valid() && g_top + 1 <= pushed - start && old(pushed) <= pushed <= old(pushed) + 4
      ensures Progress(p0, before, begin, g_ch, Colours(), Visited(), Stack(), {cur})
      ensures LookedAt(p0, Visited(), Stack(), cur, 4)
    {
      hide Progress, LookedAt, Grid, Stack;
      NothingLookedAt(p0, Visited(), Stack(), cur);
      for i: nat := 0 to 4
        invariant Valid() && g_top + 1 <= pushed - start && old(pushed) <= pushed <= old(pushed) + i
        invariant Progress(p0, before, begin, g_ch, Colours(), Visited(), Stack(), {cur})
        invariant LookedAt(p0, Visited(), Stack(), cur, i)
      {
        var n := Adjoining(cur, i);
        var offGrid: char := *;
        var read := if InGrid(n) then arr[n.y, n.x] else offGrid;
        PushSeen(p0, before, begin, g_ch, Colours(), Visited(), Stack(), cur, i, read == arr[cur.y, cur.x]);
        if read == arr[cur.y, cur.x] {
          Push(n);
        }
      }
    }

    /** Forgets which cells were visited. */
    method ClearVisit()
      requires Shape()
      modifies visit
      ensures Visited() == {}
    {
      for y := 0 to mHeight
        invariant forall i, j :: 0 <= i < y && 0 <= j < mWidth ==> !visit[i, j]
      {
        for x := 0 to mWidth
          invariant forall i, j :: 0 <= i < y && 0 <= j < mWidth ==> !visit[i, j]
          invariant forall j :: 0 <= j < x ==> !visit[y, j]
        {
          visit[y, x] := false;
        }
      }
    }

    /** One turn of the program's loop: with nothing visited, the component of the chosen cell
        takes the chosen colour, and nothing else changes. */
    method Turn(begin: Cell, ch: char)
      requires Valid() && g_top == -1
      modifies this`g_top, this`pushed, this`g_ch, g_stack, arr, visit
      ensures Valid() && g_top == -1 && g_ch == ch
      ensures Colours() == Recoloured(old(Colours()), Component(old(Colours()), {}, begin), ch)
      ensures pushed - old(pushed) <= 1 + 4 * |Component(old(Colours()), {}, begin)|
      ensures mWidth == mHeight == 10 ==> pushed - old(pushed) <= 401
    {
      hide Component, Recoloured;
      ClearVisit();
      g_ch := ch;
      PaintStack2(begin);
    }
  }

  /** The picture after painting a component for each turn, in order. */
  ghost function Painted(p: Picture, turns: seq<(Cell, char)>): Picture {
    if turns == [] then p
    else
      var before, (begin, ch) := Painted(p, turns[..|turns| - 1]), turns[|turns| - 1];
      Recoloured(before, Component(before, {}, begin), ch)
  }

  lemma PaintedNone(p: Picture)
    ensures Painted(p, []) == p
  {
  }

  lemma PaintedNext(p: Picture, turns: seq<(Cell, char)>, i: nat)
    requires i < |turns|
    ensures var before, (begin, ch) := Painted(p, turns[..i]), turns[i];
            Painted(p, turns[..i + 1]) == Recoloured(before, Component(before, {}, begin), ch)
  {
    assert turns[..i + 1][..i] == turns[..i];
  }

  /** The program, for any picture and any choices: its stack of 1000 holds the at most 401 cells
      that a turn pushes, and every turn recolours one component. */
  method Program(pixels: Cell -> char, turns: seq<(Cell, char)>) returns (canvas: Canvas)
    ensures fresh(canvas) && canvas.Valid() && canvas.mWidth == canvas.mHeight == 10 && canvas.g_stack.Length == 1000
    ensures canvas.Colours() == Painted(map c | c in canvas.Grid() :: pixels(c), turns)
    ensures canvas.pushed <= 401 * |turns|
  {
    hide Component, Recoloured, Painted, Canvas.Colours, Canvas.Visited, Canvas.Grid;
    canvas := new Canvas(pixels);
    ghost var p := canvas.Colours();
    assert p == map c | c in canvas.Grid() :: pixels(c);
    PaintedNone(p);
    assert turns[..0] == [];
    for i := 0 to |turns|
      invariant fresh(canvas) && fresh(canvas.arr) && fresh(canvas.visit) && fresh(canvas.g_stack)
      invariant canvas.Shape() && canvas.Valid() && canvas.g_top == -1
      invariant canvas.Colours() == Painted(p, turns[..i]) && canvas.pushed <= 401 * i
    {
      PaintedNext(p, turns, i);
      var (begin, ch) := turns[i];
      canvas.Turn(begin, ch);
    }
    assert turns[..|turns|] == turns;
  }
}
