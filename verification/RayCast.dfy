/** The integer line walker that decides which cells lie between two cells. */
module RayCast {
  import opened Basics
  import opened GridPaths

  // n steps in the direction of d.
  function Towards(d: int, n: int): int {
    if d < 0 then -n else n
  }

  /** The steps of the ray, along the axis on which the end is farther. */
  function Length(begin: Cell, end: Cell): nat {
    Max(Abs(end.x - begin.x), Abs(end.y - begin.y))
  }

  /** How far the line with slope minor/major has come on the other axis after k steps,
      rounded to the nearest cell. */
  function Offset(major: nat, minor: nat, k: nat): nat {
    if major == 0 then k else (major / 2 + k * minor) / major
  }

  function Error(major: nat, minor: nat, k: nat): nat {
    if major == 0 then 0 else (major / 2 + k * minor) % major
  }

  /** The k-th cell of the ray. */
  function RayCell(begin: Cell, end: Cell, k: nat): Cell {
    var dx, dy := end.x - begin.x, end.y - begin.y;
    if Abs(dx) >= Abs(dy) then
      Cell(begin.x + Towards(dx, k), begin.y + Towards(dy, Offset(Abs(dx), Abs(dy), k)))
    else
      Cell(begin.x + Towards(dx, Offset(Abs(dy), Abs(dx), k)), begin.y + Towards(dy, k))
  }

  lemma DivisionIsUnique(x: nat, q: nat, r: nat, d: nat)
    requires 0 <= r < d && x == q * d + r
    ensures x / d == q && x % d == r
  {
    var q', r' := x / d, x % d;
    assert x == q' * d + r';
    if q' > q {
      NextMultiple(q', q, d);
    } else if q' < q {
      NextMultiple(q, q', d);
    }
  }

  lemma {:induction false} NextMultiple(a: nat, b: nat, d: nat)
    requires a > b
    ensures a * d >= b * d + d
  {
    assert a * d == (a - 1) * d + d;
    if a > b + 1 {
      NextMultiple(a - 1, b, d);
    }
  }

  /** One step of the walker's counter is one step of the division. */
  lemma OffsetStep(major: nat, minor: nat, k: nat)
    requires minor <= major
    ensures var over := Error(major, minor, k) + minor >= major;
            && Offset(major, minor, k + 1) == Offset(major, minor, k) + (if over then 1 else 0)
            && Error(major, minor, k + 1) == Error(major, minor, k) + minor - (if over then major else 0)
  {
    if major > 0 {
      assert major / 2 + (k + 1) * minor == (major / 2 + k * minor) + minor;
      DivisionStep(major / 2 + k * minor, minor, major);
    }
  }

  lemma DivisionStep(x: nat, minor: nat, d: nat)
    requires minor <= d && d > 0
    ensures var over := x % d + minor >= d;
            && (x + minor) / d == x / d + (if over then 1 else 0)
            && (x + minor) % d == x % d + minor - (if over then d else 0)
  {
    var q, r := x / d, x % d;
    assert x == q * d + r;
    if r + minor >= d {
      assert (q + 1) * d == q * d + d;
      DivisionIsUnique(x + minor, q + 1, r + minor - d, d);
    } else {
      DivisionIsUnique(x + minor, q, r + minor, d);
    }
  }

  lemma OffsetStarts(major: nat, minor: nat)
    requires minor <= major
    ensures Error(major, minor, 0) == major / 2 && Offset(major, minor, 0) == 0
  {
    if major > 0 {
      DivisionIsUnique(major / 2, 0, major / 2, major);
    }
  }

  /** At most half a cell away from the exact line. */
  lemma OffsetIsNear(major: nat, minor: nat, k: nat)
    requires major > 0
    ensures 2 * Abs(Offset(major, minor, k) * major - k * minor) <= major
  {
    var x := major / 2 + k * minor;
    assert x == (x / major) * major + x % major;
  }

  lemma OffsetEnds(major: nat, minor: nat)
    requires minor <= major
    ensures Offset(major, minor, major) == minor
  {
    if major > 0 {
      DivisionIsUnique(major / 2 + major * minor, minor, major / 2, major);
    }
  }

  lemma {:induction false} OffsetWithin(major: nat, minor: nat, k: nat)
    requires minor <= major && k <= major
    ensures Offset(major, minor, k) <= minor
    decreases major - k
  {
    if k == major {
      OffsetEnds(major, minor);
    } else {
      OffsetStep(major, minor, k);
      OffsetWithin(major, minor, k + 1);
    }
  }

  /** The ray starts and ends where it should. */
  lemma RayEnds(begin: Cell, end: Cell)
    ensures RayCell(begin, end, 0) == begin && RayCell(begin, end, Length(begin, end)) == end
  {
    var dx, dy := Abs(end.x - begin.x), Abs(end.y - begin.y);
    OffsetStarts(Max(dx, dy), Min(dx, dy));
    OffsetEnds(Max(dx, dy), Min(dx, dy));
  }

  /** From one cell of the ray to the next: always a step along the longer axis, and one along
      the other when the counter overflows. */
  lemma RayStep(begin: Cell, end: Cell, k: nat)
    ensures var dx, dy := end.x - begin.x, end.y - begin.y;
            var major, minor := Max(Abs(dx), Abs(dy)), Min(Abs(dx), Abs(dy));
            var c, count := RayCell(begin, end, k), Error(major, minor, k) + minor;
            var over := count >= major;
            && RayCell(begin, end, k + 1) ==
                 (if Abs(dx) >= Abs(dy) then Cell(c.x + Towards(dx, 1), if over then c.y + Towards(dy, 1) else c.y)
                  else Cell(if over then c.x + Towards(dx, 1) else c.x, c.y + Towards(dy, 1)))
            && Error(major, minor, k + 1) == if over then count - major else count
  {
    var dx, dy := Abs(end.x - begin.x), Abs(end.y - begin.y);
    OffsetStep(Max(dx, dy), Min(dx, dy), k);
    hide Offset, Error;
  }

  /** Each cell of the ray is 8-adjacent to the next. */
  lemma RayIsConnected(begin: Cell, end: Cell, k: nat)
    ensures Adjacent(RayCell(begin, end, k), RayCell(begin, end, k + 1))
  {
    RayStep(begin, end, k);
  }

  predicate Between(a: int, x: int, b: int) {
    a <= x <= b || b <= x <= a
  }

  /** The ray stays in the rectangle spanned by its ends. */
  lemma RayInBox(begin: Cell, end: Cell, k: nat)
    requires k <= Length(begin, end)
    ensures var c := RayCell(begin, end, k); Between(begin.x, c.x, end.x) && Between(begin.y, c.y, end.y)
  {
    var dx, dy := Abs(end.x - begin.x), Abs(end.y - begin.y);
    OffsetWithin(Max(dx, dy), Min(dx, dy), k);
  }

  /** The ray stays within half a cell of the straight line: with the end (dx, dy) away, the
      cross product of a cell's distance with it is at most half of the longer side. */
  lemma RayIsNearLine(begin: Cell, end: Cell, k: nat)
    requires k <= Length(begin, end)
    ensures var c := RayCell(begin, end, k);
            2 * Abs((c.x - begin.x) * (end.y - begin.y) - (c.y - begin.y) * (end.x - begin.x)) <= Length(begin, end)
  {
    var dx, dy := end.x - begin.x, end.y - begin.y;
    var major, minor := Max(Abs(dx), Abs(dy)), Min(Abs(dx), Abs(dy));
    if major > 0 {
      OffsetIsNear(major, minor, k);
      var o := Offset(major, minor, k);
      if Abs(dx) >= Abs(dy) {
        CrossProduct(dx, dy, k, o);
      } else {
        CrossProduct(dy, dx, k, o);
      }
    }
  }

  /** The k-th cell of a straight or diagonal run from a towards b. */
  function RunCell(a: Cell, b: Cell, k: nat): Cell {
    var dx, dy := b.x - a.x, b.y - a.y;
    Cell(if dx == 0 then a.x else a.x + Towards(dx, k), if dy == 0 then a.y else a.y + Towards(dy, k))
  }

  predicate IsRun(a: Cell, b: Cell) {
    a.x == b.x || a.y == b.y || Abs(b.x - a.x) == Abs(b.y - a.y)
  }

  lemma OffsetOnRun(major: nat, k: nat)
    ensures major > 0 ==> Offset(major, 0, k) == 0
    ensures Offset(major, major, k) == k
  {
    if major > 0 {
      assert k * 0 == 0;
      DivisionIsUnique(major / 2, 0, major / 2, major);
      DivisionIsUnique(major / 2 + k * major, k, major / 2, major);
    }
  }

  /** Between cells on one row, column or diagonal the ray is the run between them. */
  lemma RayIsRun(a: Cell, b: Cell, k: nat)
    requires IsRun(a, b) && k <= Length(a, b)
    ensures RayCell(a, b, k) == RunCell(a, b, k)
  {
    OffsetOnRun(Length(a, b), k);
    hide Offset;
  }

  lemma CrossProduct(d: int, d': int, k: nat, o: nat)
    ensures Abs(Towards(d, k) * d' - Towards(d', o) * d) == Abs(o * Abs(d) - k * Abs(d'))
    ensures Abs(Towards(d', o) * d - Towards(d, k) * d') == Abs(o * Abs(d) - k * Abs(d'))
  {
    SignedProduct(d, k, d');
    SignedProduct(d', o, d);
  }

  lemma SignedProduct(d: int, k: int, d': int)
    requires k >= 0
    ensures var m: int := k * Abs(d'); Towards(d, k) * d' == if (d < 0) == (d' < 0) then m else -m
  {
    assert (-k) * d' == -(k * d') && k * (-d') == -(k * d');
  }

  class CRayCast {
    var mBegin: Cell
    var mEnd: Cell
    var mCur: Cell
    var mCount: int
    var mdx: int
    var mdy: int
    var mNum: int
    var mXAxis: bool
    var mXMove: int
    var mYMove: int

    /** Ready to give cell number mNum of the ray from mBegin to mEnd. */
    ghost predicate Valid()
      reads this
    {
      && mNum >= 0
      && mdx == Abs(mEnd.x - mBegin.x) && mdy == Abs(mEnd.y - mBegin.y)
      && mXMove == Towards(mEnd.x - mBegin.x, 1) && mYMove == Towards(mEnd.y - mBegin.y, 1)
      && mXAxis == (mdx >= mdy)
      && mCur == RayCell(mBegin, mEnd, mNum)
      && mCount == Error(Max(mdx, mdy), Min(mdx, mdy), mNum)
    }

    constructor ()
    {
      mBegin, mEnd, mCur := Cell(0, 0), Cell(0, 0), Cell(0, 0);
    }

    method SetBegin(begin: Cell)
      modifies this
      ensures mBegin == mCur == begin
    {
      mBegin := begin;
      mCur := begin;
    }

    method SetEnd(end: Cell)
      requires mCur == mBegin
      modifies this
      ensures Valid() && mBegin == old(mBegin) && mEnd == end && mNum == 0
    {
      hide RayCell, Offset, Error;
      RayEnds(mBegin, end);
      mEnd := end;
      mdx := mEnd.x - mBegin.x;
      mdy := mEnd.y - mBegin.y;
      mXMove := if mdx < 0 then -1 else 1;
      mYMove := if mdy < 0 then -1 else 1;
      mdx := if mdx > 0 then mdx else -mdx;
      mdy := if mdy > 0 then mdy else -mdy;
      mNum := 0;
      mXAxis := mdx >= mdy;
      if mXAxis {
        mCount := mdx / 2;
      } else {
        mCount := mdy / 2;
      }
      OffsetStarts(Max(mdx, mdy), Min(mdx, mdy));
    }

    /** Gives the next cell and says whether it lies past the end. */
    method GetNext() returns (over: bool, next: Cell)
      requires Valid()
      modifies this
      ensures Valid() && mBegin == old(mBegin) && mEnd == old(mEnd) && mNum == old(mNum) + 1
      ensures next == RayCell(mBegin, mEnd, old(mNum))
      ensures over == (old(mNum) == Length(mBegin, mEnd) + 1)
    {
      hide RayCell, Offset, Error, Abs, Towards;
      RayStep(mBegin, mEnd, mNum);
      if mXAxis {
        next := mCur;
        mCur := mCur.(x := mCur.x + mXMove);
        mCount := mCount + mdy;
        if mCount >= mdx {
          mCur := mCur.(y := mCur.y + mYMove);
          mCount := mCount - mdx;
        }
        over := mNum == mdx + 1;
        mNum := mNum + 1;
      } else {
        next := mCur;
        mCur := mCur.(y := mCur.y + mYMove);
        mCount := mCount + mdx;
        if mCount >= mdy {
          mCur := mCur.(x := mCur.x + mXMove);
          mCount := mCount - mdy;
        }
        over := mNum == mdy + 1;
        mNum := mNum + 1;
      }
    }

    method Reset()
      requires Valid()
      modifies this
      ensures Valid() && mBegin == old(mBegin) && mEnd == old(mEnd) && mNum == 0
    {
      mCur := mBegin;
      mNum := 0;
      if mXAxis {
        mCount := mdx / 2;
      } else {
        mCount := mdy / 2;
      }
      RayEnds(mBegin, mEnd);
      OffsetStarts(Max(mdx, mdy), Min(mdx, mdy));
    }
  }
}
