/**
 The solver as the program runs it: one mutable 9x9 board, written and
 restored in place by a recursive `Solve`, which appends deep-copy
 snapshots to a solution list. Each method is proved to agree with the pure
 model in `Sudoku` and `Search`.
 */
module Solver {
  import opened Sudoku
  import opened Search

  predicate Board(a: array2<int>) {
    a.Length0 == 9 && a.Length1 == 9
  }

  /** The deep copy taken when a solution is recorded. */
  function Snapshot(a: array2<int>): (g: Grid)
    reads a
    requires Board(a)
    ensures Shape(g)
    ensures forall i, j :: OnBoard(i, j) ==> g[i][j] == a[i, j]
  {
    seq(9, i requires 0 <= i < 9 reads a => seq(9, j requires 0 <= j < 9 reads a => a[i, j]))
  }

  /** `possible(row, col, val)` on the live board: scans the row, then the
      column, then the box, and answers false at the first occurrence of
      `val`. It declares no `modifies` clause, so the board is left as it was. */
  method PossibleAt(a: array2<int>, row: int, col: int, val: int) returns (ok: bool)
    requires Board(a) && OnBoard(row, col)
    ensures ok == Possible(Snapshot(a), row, col, val)
  {
    ghost var g := Snapshot(a);
    var c := 0;
    while c < 9
      invariant 0 <= c <= 9
      invariant forall c' :: 0 <= c' < c ==> a[row, c'] != val
    {
      if a[row, c] == val {
        assert InRow(g, row, val) by { assert g[row][c] == val; }
        return false;
      }
      c := c + 1;
    }
    var r := 0;
    while r < 9
      invariant 0 <= r <= 9
      invariant forall r' :: 0 <= r' < r ==> a[r', col] != val
    {
      if a[r, col] == val {
        assert InColumn(g, col, val) by { assert g[r][col] == val; }
        return false;
      }
      r := r + 1;
    }
    var r0, c0 := row / 3 * 3, col / 3 * 3;
    r := r0;
    while r < r0 + 3
      invariant r0 <= r <= r0 + 3
      invariant forall r', c' :: r0 <= r' < r && c0 <= c' < c0 + 3 ==> a[r', c'] != val
    {
      c := c0;
      while c < c0 + 3
        invariant c0 <= c <= c0 + 3
        invariant forall r', c' :: r0 <= r' < r && c0 <= c' < c0 + 3 ==> a[r', c'] != val
        invariant forall c' :: c0 <= c' < c ==> a[r, c'] != val
      {
        if a[r, c] == val {
          assert InBox(g, row, col, val) by { assert g[r][c] == val; }
          return false;
        }
        c := c + 1;
      }
      r := r + 1;
    }
    return true;
  }

  /** The scan of `solve()` over rows 0..8 and, within each, columns 0..8
      for the first cell holding 0. */
  method FindBlank(a: array2<int>) returns (b: Option<Pos>)
    requires Board(a)
    ensures b == FirstBlank(Snapshot(a))
  {
    ghost var g := Snapshot(a);
    var i := 0;
    while i < 9
      invariant 0 <= i <= 9
      invariant forall r, c :: 0 <= r < i && 0 <= c < 9 ==> a[r, c] != 0
    {
      var j := 0;
      while j < 9
        invariant 0 <= j <= 9
        invariant forall c :: 0 <= c < j ==> a[i, c] != 0
      {
        if a[i, j] == 0 {
          var p := Pos(i, j);
          var f := FirstBlank(g);
          assert f.Some? by { assert g[i][j] == 0; }
          assert !Before(f.value.row, f.value.col, p);
          assert !Before(i, j, f.value);
          return Some(p);
        }
        j := j + 1;
      }
      i := i + 1;
    }
    assert Complete(g);
    return None;
  }

  /** `solve()`: with no blank left it appends a snapshot of the board;
      otherwise the digit loop runs at the first blank. It returns `acc`
      followed by the model's snapshots and leaves the board as it found it. */
  method Solve(a: array2<int>, acc: seq<Grid>) returns (sols: seq<Grid>)
    requires Board(a)
    modifies a
    ensures Snapshot(a) == old(Snapshot(a))
    ensures sols == acc + Solutions(old(Snapshot(a)))
    decreases ZeroCount(Snapshot(a)), 2
  {
    var b := FindBlank(a);
    match b
    case None =>
      sols := acc + [Snapshot(a)];
    case Some(p) =>
      sols := TryDigits(a, p, acc);
  }

  /** The digit loop of `solve()` at blank `p`: each digit k = 1..9 in turn. */
  method TryDigits(a: array2<int>, p: Pos, acc: seq<Grid>) returns (sols: seq<Grid>)
    requires Board(a) && FirstBlank(Snapshot(a)) == Some(p)
    modifies a
    ensures Snapshot(a) == old(Snapshot(a))
    ensures sols == acc + Branches(old(Snapshot(a)), p, 1)
    decreases ZeroCount(Snapshot(a)), 1
  {
    ghost var g := Snapshot(a);
    sols := acc;
    var k := 1;
    while k <= 9
      invariant 1 <= k <= 10
      invariant Snapshot(a) == g
      invariant acc + Branches(g, p, 1) == sols + Branches(g, p, k)
    {
      ghost var before := sols;
      sols := TryDigit(a, p, k, sols);
      assert Branches(g, p, k) == Attempt(g, p, k) + Branches(g, p, k + 1);
      assert before + (Attempt(g, p, k) + Branches(g, p, k + 1)) == sols + Branches(g, p, k + 1);
      k := k + 1;
    }
  }

  /** One turn of the digit loop: when `possible` accepts k, write k at `p`,
      recurse, and write 0 back. */
  method TryDigit(a: array2<int>, p: Pos, k: int, acc: seq<Grid>) returns (sols: seq<Grid>)
    requires Board(a) && FirstBlank(Snapshot(a)) == Some(p) && 1 <= k <= 9
    modifies a
    ensures Snapshot(a) == old(Snapshot(a))
    ensures sols == acc + Attempt(old(Snapshot(a)), p, k)
    decreases ZeroCount(Snapshot(a)), 0
  {
    ghost var g := Snapshot(a);
    var ok := PossibleAt(a, p.row, p.col, k);
    if ok {
      ghost var g' := SetCell(g, p.row, p.col, k);
      a[p.row, p.col] := k;
      GridsEqual(Snapshot(a), g');
      PlacementRemovesBlank(g, p.row, p.col, k);
      sols := Solve(a, acc);
      a[p.row, p.col] := 0;
      GridsEqual(Snapshot(a), g);
    } else {
      sols := acc;
    }
  }

  /** The program's run of the solver: the board is loaded with the initial
      grid, the solution list starts empty, and `solve()` fills it. The
      result is exactly the model's sequence of solutions. */
  method Enumerate(g: Grid) returns (sols: seq<Grid>)
    requires Shape(g)
    ensures sols == Solutions(g)
  {
    var a := new int[9, 9];
    var i := 0;
    while i < 9
      invariant 0 <= i <= 9
      invariant forall r, c :: 0 <= r < i && 0 <= c < 9 ==> a[r, c] == g[r][c]
    {
      var j := 0;
      while j < 9
        invariant 0 <= j <= 9
        invariant forall r, c :: 0 <= r < i && 0 <= c < 9 ==> a[r, c] == g[r][c]
        invariant forall c :: 0 <= c < j ==> a[i, c] == g[i][c]
      {
        a[i, j] := g[i][j];
        j := j + 1;
      }
      i := i + 1;
    }
    GridsEqual(Snapshot(a), g);
    sols := Solve(a, []);
  }
}
