/** The straight line a drag draws across the grid (the body of
    `handleMouseEnter`): from the start cell towards the cell under the
    pointer, horizontally, vertically or along a true diagonal, stopping at
    the edge of the grid. */
module Trace {
  import opened Wrappers
  import opened Grid

  function Abs(x: int): int {
    if x < 0 then -x else x
  }

  function Max(a: int, b: int): int {
    if a < b then b else a
  }

  /** `d === 0 ? 0 : d / Math.abs(d)`. */
  function Sign(d: int): int {
    if d == 0 then 0 else if d > 0 then 1 else -1
  }

  /** Row and column offset from `start` to `end`, read through `rc`. */
  function Delta(b: Board, start: int, end: int): (int, int)
    requires b.Valid()
  {
    (Rc(b.cols, end).0 - Rc(b.cols, start).0, Rc(b.cols, end).1 - Rc(b.cols, start).1)
  }

  /** A drag the component accepts: horizontal, vertical, or with row and
      column offsets of equal size. */
  predicate Straight(dr: int, dc: int) {
    dr == 0 || dc == 0 || Abs(dr) == Abs(dc)
  }

  /** First cell (row, column), unit step and number of cells of a line. */
  datatype Line = Line(sr: int, sc: int, stepR: int, stepC: int, len: int)

  /** The line laid from `start` towards `end`, or None for a drag that is
      not straight (`handleMouseEnter` then returns early). */
  function LineOf(b: Board, start: int, end: int): Option<Line>
    requires b.Valid()
  {
    var (sr, sc) := Rc(b.cols, start);
    var (dr, dc) := Delta(b, start, end);
    var stepR, stepC := Sign(dr), Sign(dc);
    if stepR != 0 && stepC != 0 && Abs(dr) != Abs(dc) then None
    else Some(Line(sr, sc, stepR, stepC, Max(Abs(dr), Abs(dc)) + 1))
  }

  /** Row and column of step `k` of a line: `sr + k * stepR`, `sc + k * stepC`. */
  function PointR(l: Line, k: int): int { l.sr + k * l.stepR }
  function PointC(l: Line, k: int): int { l.sc + k * l.stepC }

  /** The cells of the line from step `k` on, ending after its last step or
      just before the first step that leaves the grid. */
  function Cells(b: Board, l: Line, k: nat): seq<int>
    decreases l.len - k
  {
    if k >= l.len || !InBounds(b, PointR(l, k), PointC(l, k)) then []
    else [Idx(b.cols, PointR(l, k), PointC(l, k))] + Cells(b, l, k + 1)
  }

  /** What `handleMouseEnter` would store in `selected`: None when it
      returns early, otherwise the clipped line. */
  function Traced(b: Board, start: int, end: int): Option<seq<int>>
    requires b.Valid()
  {
    match LineOf(b, start, end)
    case None => None
    case Some(l) => Some(Cells(b, l, 0))
  }

  /** The loop of `handleMouseEnter` that builds `newSel`. The result is
      None exactly when the drag is not straight. */
  method TraceLine(b: Board, start: int, end: int) returns (sel: Option<seq<int>>)
    requires b.Valid()
    ensures sel == Traced(b, start, end)
    ensures sel.None? <==> !Straight(Delta(b, start, end).0, Delta(b, start, end).1)
  {
    var (sr, sc) := Rc(b.cols, start);
    var (er, ec) := Rc(b.cols, end);
    var dr := er - sr;
    var dc := ec - sc;
    var stepR := Sign(dr);
    var stepC := Sign(dc);
    assert Delta(b, start, end) == (dr, dc);
    if stepR != 0 && stepC != 0 && Abs(dr) != Abs(dc) {
      assert LineOf(b, start, end) == None;
      return None;
    }
    var len := Max(Abs(dr), Abs(dc)) + 1;
    ghost var l := Line(sr, sc, stepR, stepC, len);
    assert LineOf(b, start, end) == Some(l);
    var newSel := [];
    var k := 0;
    while k < len
      invariant 0 <= k <= len
      invariant newSel + Cells(b, l, k) == Cells(b, l, 0)
    {
      var r := sr + k * stepR;
      var c := sc + k * stepC;
      assert r == PointR(l, k) && c == PointC(l, k);
      if r < 0 || r >= b.rows || c < 0 || c >= b.cols {
        assert Cells(b, l, k) == [];
        break;
      }
      newSel := newSel + [Idx(b.cols, r, c)];
      k := k + 1;
    }
    assert newSel == Cells(b, l, 0);
    assert Traced(b, start, end) == Some(Cells(b, l, 0));
    sel := Some(newSel);
  }

  /** The cells from step `k` on are the steps `k`, `k + 1`, ... of the line
      for as long as they stay on the grid: the sequence stops either at the
      end of the line or at the first step off the grid. */
  lemma {:induction false} CellsAre(b: Board, l: Line, k: nat)
    requires b.Valid() && k <= l.len
    ensures k + |Cells(b, l, k)| <= l.len
    ensures forall j :: k <= j < k + |Cells(b, l, k)| ==>
              InBounds(b, PointR(l, j), PointC(l, j)) &&
              Cells(b, l, k)[j - k] == Idx(b.cols, PointR(l, j), PointC(l, j))
    ensures var n := k + |Cells(b, l, k)|;
              n == l.len || !InBounds(b, PointR(l, n), PointC(l, n))
    decreases l.len - k
  {
    if k < l.len && InBounds(b, PointR(l, k), PointC(l, k)) {
      CellsAre(b, l, k + 1);
      var s := Cells(b, l, k);
      var t := Cells(b, l, k + 1);
      assert s == [Idx(b.cols, PointR(l, k), PointC(l, k))] + t;
      forall j | k < j < k + |s|
        ensures InBounds(b, PointR(l, j), PointC(l, j)) &&
                s[j - k] == Idx(b.cols, PointR(l, j), PointC(l, j))
      {
        assert s[j - k] == t[j - (k + 1)];
      }
    }
  }

  /** Every traced cell is a cell of the grid, and the trace is cut exactly
      where the line first leaves the grid: its length is the number of
      on-grid steps before the exit (or the whole line). */
  lemma TraceClipped(b: Board, start: int, end: int)
    requires b.Valid() && Traced(b, start, end).Some?
    ensures var s := Traced(b, start, end).value;
            var l := LineOf(b, start, end).value;
            |s| <= l.len &&
            (forall k :: 0 <= k < |s| ==>
               0 <= s[k] < b.rows * b.cols &&
               InBounds(b, PointR(l, k), PointC(l, k)) &&
               s[k] == Idx(b.cols, PointR(l, k), PointC(l, k))) &&
            (|s| == l.len || !InBounds(b, PointR(l, |s|), PointC(l, |s|)))
  {
    var s := Traced(b, start, end).value;
    var l := LineOf(b, start, end).value;
    CellsAre(b, l, 0);
    forall k | 0 <= k < |s|
      ensures 0 <= s[k] < b.rows * b.cols
    {
      assert s[k - 0] == s[k];
      IdxInRange(b, PointR(l, k), PointC(l, k));
    }
  }

  /** Between two on-grid endpoints of a straight line, every step is on
      the grid: the trace loop never breaks. */
  lemma StepsOnGrid(b: Board, start: int, end: int, k: int)
    requires b.Valid() && 0 <= start < b.rows * b.cols && 0 <= end < b.rows * b.cols
    requires LineOf(b, start, end).Some?
    requires 0 <= k < LineOf(b, start, end).value.len
    ensures var l := LineOf(b, start, end).value;
            InBounds(b, PointR(l, k), PointC(l, k))
  {
    var l := LineOf(b, start, end).value;
    IdxOfRc(b, start);
    IdxOfRc(b, end);
    var (dr, dc) := Delta(b, start, end);
    assert l.len - 1 == Max(Abs(dr), Abs(dc));
    if l.stepR == 1 {
      assert PointR(l, k) == l.sr + k;
    } else if l.stepR == -1 {
      assert PointR(l, k) == l.sr - k;
    } else {
      assert PointR(l, k) == l.sr;
    }
    if l.stepC == 1 {
      assert PointC(l, k) == l.sc + k;
    } else if l.stepC == -1 {
      assert PointC(l, k) == l.sc - k;
    } else {
      assert PointC(l, k) == l.sc;
    }
  }

  /** The last step of a straight line lands on its end cell. */
  lemma LastStepIsEnd(b: Board, start: int, end: int)
    requires b.Valid() && 0 <= start < b.rows * b.cols && 0 <= end < b.rows * b.cols
    requires LineOf(b, start, end).Some?
    ensures var l := LineOf(b, start, end).value;
            (PointR(l, l.len - 1), PointC(l, l.len - 1)) == Rc(b.cols, end)
  {
    var l := LineOf(b, start, end).value;
    var (dr, dc) := Delta(b, start, end);
    var n := l.len - 1;
    assert n == Max(Abs(dr), Abs(dc));
    if l.stepR == 1 {
      assert PointR(l, n) == l.sr + n;
    } else if l.stepR == -1 {
      assert PointR(l, n) == l.sr - n;
    } else {
      assert PointR(l, n) == l.sr;
    }
    if l.stepC == 1 {
      assert PointC(l, n) == l.sc + n;
    } else if l.stepC == -1 {
      assert PointC(l, n) == l.sc - n;
    } else {
      assert PointC(l, n) == l.sc;
    }
  }

  /** A straight drag between two cells of the grid is traced in full:
      `max(|dr|, |dc|) + 1` cells. */
  lemma TraceLength(b: Board, start: int, end: int)
    requires b.Valid() && 0 <= start < b.rows * b.cols && 0 <= end < b.rows * b.cols
    requires Straight(Delta(b, start, end).0, Delta(b, start, end).1)
    ensures Traced(b, start, end).Some?
    ensures |Traced(b, start, end).value| == LineOf(b, start, end).value.len
    ensures LineOf(b, start, end).value.len ==
              Max(Abs(Delta(b, start, end).0), Abs(Delta(b, start, end).1)) + 1
  {
    var l := LineOf(b, start, end).value;
    var s := Traced(b, start, end).value;
    TraceClipped(b, start, end);
    if |s| < l.len {
      StepsOnGrid(b, start, end, |s|);
    }
  }

  /** The shape of a drag between two cells of the grid along a straight
      line: it covers `max(|dr|, |dc|) + 1` cells of the grid, starts at the
      start cell and ends at the end cell. A drag that has not left its
      start cell selects just that cell. */
  lemma TraceEnds(b: Board, start: int, end: int)
    requires b.Valid() && 0 <= start < b.rows * b.cols && 0 <= end < b.rows * b.cols
    requires Straight(Delta(b, start, end).0, Delta(b, start, end).1)
    ensures Traced(b, start, end).Some?
    ensures var s := Traced(b, start, end).value;
            |s| == Max(Abs(Delta(b, start, end).0), Abs(Delta(b, start, end).1)) + 1 &&
            (forall k :: 0 <= k < |s| ==> 0 <= s[k] < b.rows * b.cols) &&
            s[0] == start && s[|s| - 1] == end
    ensures start == end ==> Traced(b, start, end) == Some([start])
  {
    var l := LineOf(b, start, end).value;
    var s := Traced(b, start, end).value;
    TraceLength(b, start, end);
    TraceClipped(b, start, end);
    IdxOfRc(b, start);
    IdxOfRc(b, end);
    assert s[0] == Idx(b.cols, PointR(l, 0), PointC(l, 0));
    LastStepIsEnd(b, start, end);
    assert s[|s| - 1] == Idx(b.cols, PointR(l, l.len - 1), PointC(l, l.len - 1));
    if start == end {
      assert Delta(b, start, end) == (0, 0);
      assert |s| == 1;
      assert s == [start];
    }
  }

  /** Consecutive cells of a traced line differ by one fixed unit step:
      `(Sign(dr), Sign(dc))`, each part -1, 0 or 1. */
  lemma TraceSteps(b: Board, start: int, end: int)
    requires b.Valid() && Traced(b, start, end).Some?
    ensures var s := Traced(b, start, end).value;
            var (dr, dc) := Delta(b, start, end);
            Sign(dr) in {-1, 0, 1} && Sign(dc) in {-1, 0, 1} &&
            forall k :: 0 <= k < |s| - 1 ==>
              Rc(b.cols, s[k + 1]) == (Rc(b.cols, s[k]).0 + Sign(dr), Rc(b.cols, s[k]).1 + Sign(dc))
  {
    var l := LineOf(b, start, end).value;
    var s := Traced(b, start, end).value;
    TraceClipped(b, start, end);
    forall k | 0 <= k < |s| - 1
      ensures Rc(b.cols, s[k + 1]) == (Rc(b.cols, s[k]).0 + l.stepR, Rc(b.cols, s[k]).1 + l.stepC)
    {
      RcOfIdx(b.cols, PointR(l, k), PointC(l, k));
      RcOfIdx(b.cols, PointR(l, k + 1), PointC(l, k + 1));
      assert PointR(l, k + 1) == PointR(l, k) + l.stepR;
      assert PointC(l, k + 1) == PointC(l, k) + l.stepC;
    }
  }
}
