/** The letter grid and the conversion between a flat cell index and
    (row, column): the component's `GRID`, `ROWS`, `COLS`, `letters`, `idx`
    and `rc`. */
module Grid {

  /** The grid as the component sees it: `ROWS`, `COLS` and the flat array
      `letters`, which holds the cell (r, c) at position r * COLS + c. */
  datatype Board = Board(rows: int, cols: int, letters: seq<char>) {
    predicate Valid() {
      rows > 0 && cols > 0 && |letters| == rows * cols
    }
  }

  /** The rows of `GRID` are strings of one common, non-zero length
      (`COLS` is read off the first row). */
  predicate Rectangular(grid: seq<string>) {
    |grid| > 0 && |grid[0]| > 0 &&
    forall i :: 0 <= i < |grid| ==> |grid[i]| == |grid[0]|
  }

  /** `GRID.join("")`: the rows one after the other. */
  function Join(grid: seq<string>): string {
    if grid == [] then "" else grid[0] + Join(grid[1..])
  }

  /** The board built from `GRID`: `ROWS = GRID.length`,
      `COLS = GRID[0].length`, `letters = GRID.join("").split("")`. */
  function FromRows(grid: seq<string>): (b: Board)
    requires Rectangular(grid)
    ensures b.Valid() && b.rows == |grid| && b.cols == |grid[0]|
    ensures forall r, c :: InBounds(b, r, c) ==>
              0 <= Idx(b.cols, r, c) < |b.letters| && b.letters[Idx(b.cols, r, c)] == grid[r][c]
  {
    var b := Board(|grid|, |grid[0]|, Join(grid));
    JoinLength(grid, |grid[0]|);
    forall r, c | InBounds(b, r, c)
      ensures 0 <= Idx(b.cols, r, c) < |b.letters| && b.letters[Idx(b.cols, r, c)] == grid[r][c]
    {
      JoinAt(grid, |grid[0]|, r, c, Idx(b.cols, r, c));
    }
    b
  }

  lemma {:induction false} JoinLength(grid: seq<string>, cols: int)
    requires forall i :: 0 <= i < |grid| ==> |grid[i]| == cols
    ensures |Join(grid)| == |grid| * cols
  {
    if grid != [] {
      JoinLength(grid[1..], cols);
    }
  }

  /** Position `i` of the joined rows is column `c` of row `r` when
      `i == r * cols + c`; stated over `i` so that the induction on `r` does
      not multiply. */
  lemma {:induction false} JoinAt(grid: seq<string>, cols: int, r: int, c: int, i: int)
    requires forall k :: 0 <= k < |grid| ==> |grid[k]| == cols
    requires 0 <= r < |grid| && 0 <= c < cols && i == r * cols + c
    ensures 0 <= i < |Join(grid)| && Join(grid)[i] == grid[r][c]
  {
    var rest := grid[1..];
    assert Join(grid) == grid[0] + Join(rest);
    if r == 0 {
      assert i == c;
    } else {
      assert forall k :: 0 <= k < |rest| ==> |rest[k]| == cols by {
        forall k | 0 <= k < |rest| ensures |rest[k]| == cols {
          assert rest[k] == grid[k + 1];
        }
      }
      assert i - cols == (r - 1) * cols + c by {
        assert r * cols == (r - 1) * cols + cols;
      }
      JoinAt(rest, cols, r - 1, c, i - cols);
      assert rest[r - 1] == grid[r];
    }
  }

  predicate InBounds(b: Board, r: int, c: int) {
    0 <= r < b.rows && 0 <= c < b.cols
  }

  /** Every index of `p` is a cell index of the grid. */
  predicate OnGrid(b: Board, p: seq<int>) {
    forall k :: 0 <= k < |p| ==> 0 <= p[k] < b.rows * b.cols
  }

  /** Each cell of `p` is the previous one moved by `d` (row, column). */
  predicate StepsBy(b: Board, p: seq<int>, d: (int, int))
    requires b.Valid()
  {
    forall k :: 0 <= k < |p| - 1 ==>
      Rc(b.cols, p[k + 1]) == (Rc(b.cols, p[k]).0 + d.0, Rc(b.cols, p[k]).1 + d.1)
  }

  /** `idx(r, c) = r * COLS + c`. */
  function Idx(cols: int, r: int, c: int): int {
    r * cols + c
  }

  /** JavaScript's `%`: `a - b * q` for the quotient `q` truncated toward
      zero, so the remainder has the sign of the dividend. */
  function JsRem(a: int, b: int): (m: int)
    requires b > 0
    ensures a >= 0 ==> 0 <= m < b && m == a % b
    ensures a < 0 ==> -b < m <= 0
    ensures exists q :: a == q * b + m
  {
    if a >= 0 then
      DivMod(a, b);
      assert a == (a / b) * b + a % b;
      a % b
    else
      DivMod(-a, b);
      var q := -((-a) / b);
      assert a == q * b + -((-a) % b);
      -((-a) % b)
  }

  /** `rc(i) = [Math.floor(i / COLS), i % COLS]`; Dafny's `/` by a positive
      divisor is the floor division of `Math.floor`. For a non-negative `i`
      the pair is the quotient and remainder of `i` by `COLS`. */
  function Rc(cols: int, i: int): (p: (int, int))
    requires cols > 0
    ensures i >= 0 ==> p.0 >= 0 && 0 <= p.1 < cols && Idx(cols, p.0, p.1) == i
  {
    DivMod(i, cols);
    (i / cols, JsRem(i, cols))
  }

  /** `idx` of a cell on the grid is a cell index of the grid. */
  lemma IdxInRange(b: Board, r: int, c: int)
    requires b.Valid() && InBounds(b, r, c)
    ensures 0 <= Idx(b.cols, r, c) < b.rows * b.cols
  {
    MulLt(r, b.rows, b.cols);
    MulLe(0, r, b.cols);
  }

  /** `rc(idx(r, c)) == [r, c]` for every cell of a row r >= 0. */
  lemma RcOfIdx(cols: int, r: int, c: int)
    requires cols > 0 && r >= 0 && 0 <= c < cols
    ensures Rc(cols, Idx(cols, r, c)) == (r, c)
  {
    var i := Idx(cols, r, c);
    MulLe(0, r, cols);
    var q, m := i / cols, i % cols;
    assert q * cols + m == i;
    if q > r {
      MulLt(r, q, cols);
    } else if q < r {
      MulLt(q, r, cols);
    }
  }

  /** `idx(rc(i)) == i` for every cell index, and `rc(i)` is on the grid. */
  lemma IdxOfRc(b: Board, i: int)
    requires b.Valid() && 0 <= i < b.rows * b.cols
    ensures InBounds(b, Rc(b.cols, i).0, Rc(b.cols, i).1)
    ensures Idx(b.cols, Rc(b.cols, i).0, Rc(b.cols, i).1) == i
  {
    var p := Rc(b.cols, i);
    if p.0 >= b.rows {
      MulLe(b.rows, p.0, b.cols);
    }
  }

  /** Conversely, an on-grid (row, column) pair is the `rc` of exactly one
      cell index, its `idx`. */
  lemma CellIndexUnique(b: Board, i: int, r: int, c: int)
    requires b.Valid() && 0 <= i < b.rows * b.cols && InBounds(b, r, c)
    ensures Rc(b.cols, i) == (r, c) <==> i == Idx(b.cols, r, c)
  {
    RcOfIdx(b.cols, r, c);
    IdxOfRc(b, i);
  }

  // Facts of division and of multiplication by a non-negative factor, which
  // the solver does not find unaided or finds only slowly.

  lemma DivMod(i: int, n: int)
    requires n > 0
    ensures i >= 0 ==> (i / n) * n + i % n == i && i / n >= 0
  {
  }

  lemma MulLe(a: int, b: int, n: int)
    requires a <= b && n >= 0
    ensures a * n <= b * n
  {
    assert b * n - a * n == (b - a) * n;
  }

  lemma MulLt(a: int, b: int, n: int)
    requires a < b && n >= 0
    ensures a * n + n <= b * n
  {
    MulLe(a + 1, b, n);
    assert (a + 1) * n == a * n + n;
  }
}
