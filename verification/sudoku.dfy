/**
 The Sudoku board of the solver: a 9x9 grid of integers in which 0 marks a
 blank cell, the legality test `Possible` that guards every tentative
 assignment, and the facts about blanks, placements and consistency that the
 search relies on.

 A grid is an immutable value here (a snapshot of the program's `int[9][9]`):
 rows are the outer sequence, columns the inner one.
 */
module Sudoku {

  type Grid = seq<seq<int>>

  /** A cell coordinate: `row` and `col` both in 0..8 on a board. */
  datatype Pos = Pos(row: int, col: int) {
    predicate Valid() {
      OnBoard(row, col)
    }
  }

  datatype Option<T> = None | Some(value: T)

  /** The shape of the program's `int[9][9]`: nine rows of nine cells. */
  predicate Shape(g: Grid) {
    |g| == 9 && forall i :: 0 <= i < 9 ==> |g[i]| == 9
  }

  predicate OnBoard(i: int, j: int) {
    0 <= i < 9 && 0 <= j < 9
  }

  /** Every cell holds 0 (blank) or a digit 1..9, as the input stage guarantees. */
  ghost predicate InRange(g: Grid)
    requires Shape(g)
  {
    forall i, j :: OnBoard(i, j) ==> 0 <= g[i][j] <= 9
  }

  /** The grid has no blank cell left. */
  ghost predicate Complete(g: Grid)
    requires Shape(g)
  {
    forall i, j :: OnBoard(i, j) ==> g[i][j] != 0
  }

  /** Top-left row (or column) of the 3x3 box holding row (or column) `x`. */
  function BoxStart(x: int): int {
    x / 3 * 3
  }

  /** Two cells lie in the same 3x3 box. */
  predicate SameBox(i: int, j: int, i2: int, j2: int) {
    BoxStart(i) == BoxStart(i2) && BoxStart(j) == BoxStart(j2)
  }

  /** Two cells share a row, a column or a box. */
  predicate SameUnit(i: int, j: int, i2: int, j2: int) {
    i == i2 || j == j2 || SameBox(i, j, i2, j2)
  }

  /** No digit occurs twice among the filled cells of any row, column or box. */
  ghost predicate Consistent(g: Grid) {
    Shape(g) &&
    forall i, j, i2, j2 ::
      (OnBoard(i, j) && OnBoard(i2, j2) && (i != i2 || j != j2) && SameUnit(i, j, i2, j2) && g[i][j] != 0)
      ==> g[i][j] != g[i2][j2]
  }

  ghost predicate InRow(g: Grid, row: int, v: int)
    requires Shape(g) && 0 <= row < 9
  {
    exists c :: 0 <= c < 9 && g[row][c] == v
  }

  ghost predicate InColumn(g: Grid, col: int, v: int)
    requires Shape(g) && 0 <= col < 9
  {
    exists r :: 0 <= r < 9 && g[r][col] == v
  }

  /** `v` occurs in the box whose top-left corner is (BoxStart(row), BoxStart(col)). */
  ghost predicate InBox(g: Grid, row: int, col: int, v: int)
    requires Shape(g) && OnBoard(row, col)
  {
    exists r, c :: BoxStart(row) <= r < BoxStart(row) + 3 && BoxStart(col) <= c < BoxStart(col) + 3 && g[r][c] == v
  }

  /** The grid with one cell overwritten. */
  function SetCell(g: Grid, i: int, j: int, v: int): (g': Grid)
    requires Shape(g) && OnBoard(i, j)
    ensures Shape(g')
    ensures g'[i][j] == v
    ensures forall r, c :: OnBoard(r, c) && (r != i || c != j) ==> g'[r][c] == g[r][c]
  {
    g[i := g[i][j := v]]
  }

  /** Two grids of the right shape are equal when they agree cell by cell. */
  lemma GridsEqual(x: Grid, y: Grid)
    requires Shape(x) && Shape(y)
    requires forall i, j :: OnBoard(i, j) ==> x[i][j] == y[i][j]
    ensures x == y
  {
    forall i | 0 <= i < 9
      ensures x[i] == y[i]
    {
      assert forall j :: 0 <= j < 9 ==> x[i][j] == y[i][j];
    }
  }

  lemma BoxOfCell(x: int, y: int)
    requires 0 <= x < 9 && 0 <= y < 9
    ensures BoxStart(x) == BoxStart(y) <==> BoxStart(x) <= y < BoxStart(x) + 3
  {
  }

  // ---------------------------------------------------------------------------
  // The legality test

  /** The values of column `col`, top to bottom. */
  function Column(g: Grid, col: int): seq<int>
    requires Shape(g) && 0 <= col < 9
  {
    seq(9, r requires 0 <= r < 9 => g[r][col])
  }

  /** The nine values of the box holding (row, col), row by row: rows
      BoxStart(row) .. +2, and within each the columns BoxStart(col) .. +2. */
  function BoxValues(g: Grid, row: int, col: int): seq<int>
    requires Shape(g) && OnBoard(row, col)
  {
    var r0, c0 := BoxStart(row), BoxStart(col);
    g[r0][c0..c0 + 3] + g[r0 + 1][c0..c0 + 3] + g[r0 + 2][c0..c0 + 3]
  }

  /** `possible(row, col, val)`: `val` may be written at (row, col) when it
      occurs neither in the row, nor in the column, nor in the box. The scans
      cover the whole row, column and box, the target cell included. */
  function Possible(g: Grid, row: int, col: int, val: int): (ok: bool)
    requires Shape(g) && OnBoard(row, col)
    ensures ok <==> !InRow(g, row, val) && !InColumn(g, col, val) && !InBox(g, row, col, val)
  {
    RowMembers(g, row, val);
    ColumnMembers(g, col, val);
    BoxMembers(g, row, col, val);
    if val in g[row] then false
    else if val in Column(g, col) then false
    else val !in BoxValues(g, row, col)
  }

  lemma SliceMembers(s: seq<int>, lo: int, hi: int, v: int)
    requires 0 <= lo <= hi <= |s|
    ensures v in s[lo..hi] <==> exists c :: lo <= c < hi && s[c] == v
  {
    if v in s[lo..hi] {
      var k :| 0 <= k < hi - lo && s[lo..hi][k] == v;
      assert s[lo + k] == v;
    }
    if exists c :: lo <= c < hi && s[c] == v {
      var c :| lo <= c < hi && s[c] == v;
      assert s[lo..hi][c - lo] == v;
    }
  }

  lemma RowMembers(g: Grid, row: int, v: int)
    requires Shape(g) && 0 <= row < 9
    ensures v in g[row] <==> InRow(g, row, v)
  {
    SliceMembers(g[row], 0, 9, v);
    assert g[row][0..9] == g[row];
  }

  lemma ColumnMembers(g: Grid, col: int, v: int)
    requires Shape(g) && 0 <= col < 9
    ensures v in Column(g, col) <==> InColumn(g, col, v)
  {
    var column := Column(g, col);
    if v in column {
      var r :| 0 <= r < 9 && column[r] == v;
      assert g[r][col] == v;
    }
    if InColumn(g, col, v) {
      var r :| 0 <= r < 9 && g[r][col] == v;
      assert column[r] == v;
    }
  }

  lemma BoxMembers(g: Grid, row: int, col: int, v: int)
    requires Shape(g) && OnBoard(row, col)
    ensures v in BoxValues(g, row, col) <==> InBox(g, row, col, v)
  {
    var r0, c0 := BoxStart(row), BoxStart(col);
    var a, b, c := g[r0][c0..c0 + 3], g[r0 + 1][c0..c0 + 3], g[r0 + 2][c0..c0 + 3];
    assert BoxValues(g, row, col) == a + b + c;
    assert v in a + b + c <==> v in a || v in b || v in c;
    SliceMembers(g[r0], c0, c0 + 3, v);
    SliceMembers(g[r0 + 1], c0, c0 + 3, v);
    SliceMembers(g[r0 + 2], c0, c0 + 3, v);
    if InBox(g, row, col, v) {
      var r, k :| r0 <= r < r0 + 3 && c0 <= k < c0 + 3 && g[r][k] == v;
      assert r == r0 || r == r0 + 1 || r == r0 + 2;
    }
  }

  /** Writing a nonzero digit into a blank keeps the grid consistent exactly
      when the grid was consistent and `Possible` accepts the digit: the link
      between the search's guard and the global invariant. */
  lemma PlacementConsistency(g: Grid, i: int, j: int, v: int)
    requires Shape(g) && OnBoard(i, j) && g[i][j] == 0 && v != 0
    ensures Consistent(SetCell(g, i, j, v)) <==> Consistent(g) && Possible(g, i, j, v)
  {
    if Consistent(SetCell(g, i, j, v)) {
      ConsistentWithoutPlacement(g, i, j, v);
      PlacedDigitWasPossible(g, i, j, v);
    }
    if Consistent(g) && Possible(g, i, j, v) {
      PossiblePlacementIsConsistent(g, i, j, v);
    }
  }

  lemma ConsistentWithoutPlacement(g: Grid, i: int, j: int, v: int)
    requires Shape(g) && OnBoard(i, j) && g[i][j] == 0
    requires Consistent(SetCell(g, i, j, v))
    ensures Consistent(g)
  {
    var g' := SetCell(g, i, j, v);
    forall r, c, r2, c2 |
      OnBoard(r, c) && OnBoard(r2, c2) && (r != r2 || c != c2) && SameUnit(r, c, r2, c2) && g[r][c] != 0
      ensures g[r][c] != g[r2][c2]
    {
      assert g'[r][c] == g[r][c];
      if r2 != i || c2 != j {
        assert g'[r2][c2] == g[r2][c2];
      }
    }
  }

  lemma PlacedDigitWasPossible(g: Grid, i: int, j: int, v: int)
    requires Shape(g) && OnBoard(i, j) && g[i][j] == 0 && v != 0
    requires Consistent(SetCell(g, i, j, v))
    ensures Possible(g, i, j, v)
  {
    var g' := SetCell(g, i, j, v);
    if InRow(g, i, v) {
      var c :| 0 <= c < 9 && g[i][c] == v;
      NoClash(g', i, j, i, c);
    }
    if InColumn(g, j, v) {
      var r :| 0 <= r < 9 && g[r][j] == v;
      NoClash(g', i, j, r, j);
    }
    if InBox(g, i, j, v) {
      var r, c :| BoxStart(i) <= r < BoxStart(i) + 3 && BoxStart(j) <= c < BoxStart(j) + 3 && g[r][c] == v;
      BoxOfCell(i, r);
      BoxOfCell(j, c);
      NoClash(g', i, j, r, c);
    }
  }

  /** One instance of `Consistent`: two distinct filled cells of a unit differ. */
  lemma NoClash(g: Grid, i: int, j: int, i2: int, j2: int)
    requires Shape(g) && Consistent(g)
    requires OnBoard(i, j) && OnBoard(i2, j2) && (i != i2 || j != j2) && SameUnit(i, j, i2, j2) && g[i][j] != 0
    ensures g[i][j] != g[i2][j2]
  {
  }

  lemma PossiblePlacementIsConsistent(g: Grid, i: int, j: int, v: int)
    requires Shape(g) && OnBoard(i, j) && g[i][j] == 0 && v != 0
    requires Consistent(g) && Possible(g, i, j, v)
    ensures Consistent(SetCell(g, i, j, v))
  {
    var g' := SetCell(g, i, j, v);
    forall r, c, r2, c2 |
      OnBoard(r, c) && OnBoard(r2, c2) && (r != r2 || c != c2) && SameUnit(r, c, r2, c2) && g'[r][c] != 0
      ensures g'[r][c] != g'[r2][c2]
    {
      if r == i && c == j {
        BoxOfCell(i, r2);
        BoxOfCell(j, c2);
        assert g'[r2][c2] == g[r2][c2];
      } else if r2 == i && c2 == j {
        BoxOfCell(i, r);
        BoxOfCell(j, c);
        assert g'[r][c] == g[r][c];
      } else {
        assert g'[r][c] == g[r][c] && g'[r2][c2] == g[r2][c2];
      }
    }
  }

  /** Every digit of a consistent grid passes `Possible` once its own cell is
      blanked again: each solution is self-consistent cell by cell. */
  lemma FilledCellIsPossible(g: Grid, i: int, j: int)
    requires Shape(g) && Consistent(g) && OnBoard(i, j) && g[i][j] != 0
    ensures Possible(SetCell(g, i, j, 0), i, j, g[i][j])
  {
    var blanked := SetCell(g, i, j, 0);
    GridsEqual(SetCell(blanked, i, j, g[i][j]), g);
    PlacementConsistency(blanked, i, j, g[i][j]);
  }

  // ---------------------------------------------------------------------------
  // Counting blanks: the measure that makes the search terminate

  function RowZeros(row: seq<int>): nat {
    if |row| == 0 then 0 else (if row[0] == 0 then 1 else 0) + RowZeros(row[1..])
  }

  /** The number of blank cells of the grid (of any sequence of rows). */
  function ZeroCount(rows: seq<seq<int>>): nat {
    if |rows| == 0 then 0 else RowZeros(rows[0]) + ZeroCount(rows[1..])
  }

  lemma {:induction false} RowZerosUpdate(row: seq<int>, j: int, v: int)
    requires 0 <= j < |row| && row[j] == 0 && v != 0
    ensures RowZeros(row[j := v]) == RowZeros(row) - 1
    decreases |row|
  {
    if j == 0 {
      assert row[j := v][1..] == row[1..];
    } else {
      RowZerosUpdate(row[1..], j - 1, v);
      assert row[j := v][1..] == row[1..][j - 1 := v];
    }
  }

  lemma {:induction false} ZeroCountUpdate(rows: seq<seq<int>>, i: int, r: seq<int>)
    requires 0 <= i < |rows|
    ensures ZeroCount(rows[i := r]) == ZeroCount(rows) - RowZeros(rows[i]) + RowZeros(r)
    decreases |rows|
  {
    if i == 0 {
      assert rows[i := r][1..] == rows[1..];
    } else {
      ZeroCountUpdate(rows[1..], i - 1, r);
      assert rows[i := r][1..] == rows[1..][i - 1 := r];
    }
  }

  /** Filling a blank with a nonzero digit removes exactly one blank. */
  lemma PlacementRemovesBlank(g: Grid, i: int, j: int, v: int)
    requires Shape(g) && OnBoard(i, j) && g[i][j] == 0 && v != 0
    ensures ZeroCount(SetCell(g, i, j, v)) == ZeroCount(g) - 1
  {
    RowZerosUpdate(g[i], j, v);
    ZeroCountUpdate(g, i, g[i][j := v]);
  }

  lemma {:induction false} RowZerosBound(row: seq<int>)
    ensures RowZeros(row) <= |row|
    ensures RowZeros(row) == 0 <==> forall c :: 0 <= c < |row| ==> row[c] != 0
    decreases |row|
  {
    if |row| > 0 {
      RowZerosBound(row[1..]);
      assert forall c :: 1 <= c < |row| ==> row[c] == row[1..][c - 1];
    }
  }

  lemma {:induction false} ZeroCountLimit(rows: seq<seq<int>>)
    requires forall i :: 0 <= i < |rows| ==> |rows[i]| == 9
    ensures ZeroCount(rows) <= 9 * |rows|
    ensures ZeroCount(rows) == 0 <==> forall i, c :: 0 <= i < |rows| && 0 <= c < 9 ==> rows[i][c] != 0
    decreases |rows|
  {
    if |rows| > 0 {
      RowZerosBound(rows[0]);
      ZeroCountLimit(rows[1..]);
      assert forall i :: 1 <= i < |rows| ==> rows[i] == rows[1..][i - 1];
    }
  }

  /** At most 81 blanks, and none exactly when the grid is complete: the
      search depth is bounded by 81. */
  lemma BlankCountBound(g: Grid)
    requires Shape(g)
    ensures ZeroCount(g) <= 81
    ensures ZeroCount(g) == 0 <==> Complete(g)
  {
    ZeroCountLimit(g);
  }

  // ---------------------------------------------------------------------------
  // The row-major scan for the first blank

  /** Cell (r, c) comes before `p` in row-major order. */
  predicate Before(r: int, c: int, p: Pos) {
    r < p.row || (r == p.row && c < p.col)
  }

  /** The first blank of `row` at or after column `j`, or |row| if none. */
  function FirstZero(row: seq<int>, j: int): (c: int)
    requires 0 <= j <= |row|
    ensures j <= c <= |row|
    ensures forall c' :: j <= c' < c ==> row[c'] != 0
    ensures c < |row| ==> row[c] == 0
    decreases |row| - j
  {
    if j == |row| then j
    else if row[j] == 0 then j
    else FirstZero(row, j + 1)
  }

  /** The first blank in row-major order among rows `i` .. 8. */
  function FirstBlankFrom(g: Grid, i: int): (b: Option<Pos>)
    requires Shape(g) && 0 <= i <= 9
    ensures b.Some? ==> b.value.Valid() && i <= b.value.row && g[b.value.row][b.value.col] == 0
    ensures b.Some? ==> forall r, c :: i <= r && OnBoard(r, c) && Before(r, c, b.value) ==> g[r][c] != 0
    ensures b.None? ==> forall r, c :: i <= r && OnBoard(r, c) ==> g[r][c] != 0
    decreases 9 - i
  {
    if i == 9 then None
    else
      var c := FirstZero(g[i], 0);
      if c < 9 then Some(Pos(i, c)) else FirstBlankFrom(g, i + 1)
  }

  /** The cell `solve()` fills next: the first 0 in row-major order, if any. */
  function FirstBlank(g: Grid): (b: Option<Pos>)
    requires Shape(g)
    ensures b.Some? <==> !Complete(g)
    ensures b.Some? ==> b.value.Valid() && g[b.value.row][b.value.col] == 0
    ensures b.Some? ==> forall r, c :: OnBoard(r, c) && Before(r, c, b.value) ==> g[r][c] != 0
  {
    FirstBlankFrom(g, 0)
  }
}
