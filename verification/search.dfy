/**
 The backtracking search of `solve()` as a pure function: the sequence of
 snapshots it appends to the solution list when started on a grid, and the
 facts about that sequence: what each recorded grid looks like, when it is
 consistent, that nothing is recorded twice, and that nothing is missed.
 */
module Search {
  import opened Sudoku

  /** `x` is a completion of `g`: every pre-filled cell of `g` is kept, and
      every blank of `g` holds a digit 1..9 in `x`. */
  ghost predicate Fills(x: Grid, g: Grid)
    requires Shape(g)
  {
    Shape(x) && forall i, j :: OnBoard(i, j) ==> if g[i][j] == 0 then 1 <= x[i][j] <= 9 else x[i][j] == g[i][j]
  }

  /** 9 to the power `n`, and 1 for `n` <= 0: the most snapshots a search
      over `n` blanks can append, since each blank is tried with nine digits. */
  function Pow9(n: int): (r: nat)
    ensures r >= 1
    decreases n
  {
    if n <= 0 then 1 else 9 * Pow9(n - 1)
  }

  /** The snapshots one call of `solve()` appends, in order. With no blank
      left the grid itself is recorded, consistent or not; otherwise the
      digits 1..9 are tried at the first blank in row-major order. */
  function Solutions(g: Grid): (r: seq<Grid>)
    requires Shape(g)
    ensures |r| <= Pow9(ZeroCount(g))
    decreases ZeroCount(g), 11
  {
    match FirstBlank(g)
    case None => [g]
    case Some(p) =>
      PlacementRemovesBlank(g, p.row, p.col, 1);
      Branches(g, p, 1)
  }

  /** What the digit loop appends for the digits k .. 9 at blank `p`. */
  function Branches(g: Grid, p: Pos, k: int): (r: seq<Grid>)
    requires Shape(g) && p.Valid() && g[p.row][p.col] == 0 && 1 <= k <= 10
    ensures |r| <= (10 - k) * Pow9(ZeroCount(g) - 1)
    decreases ZeroCount(g), 11 - k
  {
    if k == 10 then [] else Attempt(g, p, k) + Branches(g, p, k + 1)
  }

  /** What one turn of the digit loop appends: when `Possible` accepts `k`,
      every snapshot of the search on the grid with `k` written at `p`. */
  function Attempt(g: Grid, p: Pos, k: int): (r: seq<Grid>)
    requires Shape(g) && p.Valid() && g[p.row][p.col] == 0 && 1 <= k <= 9
    ensures |r| <= Pow9(ZeroCount(g) - 1)
    decreases ZeroCount(g), 0
  {
    if Possible(g, p.row, p.col, k) then
      PlacementRemovesBlank(g, p.row, p.col, k);
      Solutions(SetCell(g, p.row, p.col, k))
    else []
  }

  /** Every recorded snapshot is a completion of the starting grid: it has no
      blank left and keeps every cell that was filled on entry. */
  lemma {:induction false} SolutionsFill(g: Grid)
    requires Shape(g)
    ensures forall x :: x in Solutions(g) ==> Fills(x, g)
    decreases ZeroCount(g), 11
  {
    match FirstBlank(g)
    case None =>
    case Some(p) => BranchesFill(g, p, 1);
  }

  /** The digit loop at blank `p`, started at digit `k`, records only
      completions that hold a digit of at least `k` at `p`. */
  lemma {:induction false} BranchesFill(g: Grid, p: Pos, k: int)
    requires Shape(g) && p.Valid() && g[p.row][p.col] == 0 && 1 <= k <= 10
    ensures forall x :: x in Branches(g, p, k) ==> Fills(x, g) && k <= x[p.row][p.col]
    decreases ZeroCount(g), 11 - k
  {
    if k < 10 {
      BranchesFill(g, p, k + 1);
      if Possible(g, p.row, p.col, k) {
        var g' := SetCell(g, p.row, p.col, k);
        PlacementRemovesBlank(g, p.row, p.col, k);
        SolutionsFill(g');
        forall x | x in Solutions(g')
          ensures Fills(x, g) && x[p.row][p.col] == k
        {
          assert Fills(x, g');
        }
      }
    }
  }

  // ---------------------------------------------------------------------------
  // Complete grids

  /** A grid without blanks yields exactly one snapshot, itself, whatever
      duplicates it holds; a grid with a blank never yields itself alone. */
  lemma CompleteGridRecordedAsIs(g: Grid)
    requires Shape(g)
    ensures Complete(g) <==> Solutions(g) == [g]
  {
    if Solutions(g) == [g] {
      SolutionsFill(g);
      assert Fills(g, g);
    }
  }

  /** The all-ones grid: complete, and full of duplicates. */
  function AllOnes(): (g: Grid)
    ensures Shape(g)
  {
    seq(9, _ => seq(9, _ => 1))
  }

  /** The search does not validate its input: a complete grid with
      duplicates is still recorded as a solution. */
  lemma InconsistentCompleteGridIsRecorded()
    ensures !Consistent(AllOnes())
    ensures Solutions(AllOnes()) == [AllOnes()]
  {
    var g := AllOnes();
    assert SameUnit(0, 0, 0, 1) && g[0][0] == g[0][1] == 1;
    CompleteGridRecordedAsIs(g);
  }

  /** The all-ones grid with its last cell blank. */
  function OnesWithBlank(): (g: Grid)
    ensures Shape(g)
  {
    seq(9, i => seq(9, j => if i == 8 && j == 8 then 0 else 1))
  }

  lemma OnesWithBlankFacts()
    ensures FirstBlank(OnesWithBlank()) == Some(Pos(8, 8))
    ensures !Possible(OnesWithBlank(), 8, 8, 1)
    ensures Possible(OnesWithBlank(), 8, 8, 2)
  {
    var g := OnesWithBlank();
    var b := FirstBlank(g);
    assert b.Some? by { assert g[8][8] == 0; }
    assert !Before(8, 8, b.value);
    assert g[8][0] == 1;
    assert forall r, c :: OnBoard(r, c) ==> g[r][c] != 2;
  }

  lemma OnesWithTwoRecorded()
    ensures Solutions(SetCell(OnesWithBlank(), 8, 8, 2)) == [SetCell(OnesWithBlank(), 8, 8, 2)]
  {
    var g2 := SetCell(OnesWithBlank(), 8, 8, 2);
    assert Complete(g2);
    CompleteGridRecordedAsIs(g2);
  }

  lemma OnesWithBlankSearch()
    ensures Solutions(OnesWithBlank()) == [SetCell(OnesWithBlank(), 8, 8, 2)] + Branches(OnesWithBlank(), Pos(8, 8), 3)
  {
    var g := OnesWithBlank();
    var p := Pos(8, 8);
    OnesWithBlankFacts();
    OnesWithTwoRecorded();
    assert Attempt(g, p, 1) == [];
    assert Attempt(g, p, 2) == [SetCell(g, 8, 8, 2)];
    assert Branches(g, p, 1) == [] + Branches(g, p, 2);
  }

  /** Duplicates among the pre-filled cells do not stop the blanks from
      being filled: the all-ones grid with its last cell blank rejects the
      digit 1 there, accepts 2, and records the still inconsistent result
      first. */
  lemma DuplicatesDoNotBlockFilling()
    ensures |Solutions(OnesWithBlank())| > 0
    ensures Solutions(OnesWithBlank())[0] == SetCell(OnesWithBlank(), 8, 8, 2)
    ensures !Consistent(SetCell(OnesWithBlank(), 8, 8, 2))
  {
    OnesWithBlankSearch();
    var g2 := SetCell(OnesWithBlank(), 8, 8, 2);
    assert SameUnit(0, 0, 0, 1) && g2[0][0] == g2[0][1] == 1;
  }

  /** From a grid holding only 0..9, every recorded snapshot holds only the
      digits 1..9. */
  lemma SolutionsAreDigits(g: Grid)
    requires Shape(g) && InRange(g)
    ensures forall x :: x in Solutions(g) ==> Shape(x) && forall i, j :: OnBoard(i, j) ==> 1 <= x[i][j] <= 9
  {
    SolutionsFill(g);
  }

  // ---------------------------------------------------------------------------
  // Consistency

  /** The filled cells of a completion are a superset of the grid's, so a
      consistent completion can only come from a consistent grid. */
  lemma CompletionInheritsConsistency(x: Grid, g: Grid)
    requires Shape(g) && Fills(x, g) && Consistent(x)
    ensures Consistent(g)
  {
    forall i, j, i2, j2 |
      OnBoard(i, j) && OnBoard(i2, j2) && (i != i2 || j != j2) && SameUnit(i, j, i2, j2) && g[i][j] != 0
      ensures g[i][j] != g[i2][j2]
    {
      assert x[i][j] == g[i][j];
      assert g[i2][j2] == 0 || x[i2][j2] == g[i2][j2];
    }
  }

  /** From a consistent grid every recorded snapshot is consistent: each digit
      written was accepted by `Possible` first. */
  lemma {:induction false} SolutionsConsistent(g: Grid)
    requires Shape(g) && Consistent(g)
    ensures forall x :: x in Solutions(g) ==> Consistent(x)
    decreases ZeroCount(g), 11
  {
    match FirstBlank(g)
    case None =>
    case Some(p) => BranchesConsistent(g, p, 1);
  }

  lemma {:induction false} BranchesConsistent(g: Grid, p: Pos, k: int)
    requires Shape(g) && p.Valid() && g[p.row][p.col] == 0 && 1 <= k <= 10
    requires Consistent(g)
    ensures forall x :: x in Branches(g, p, k) ==> Consistent(x)
    decreases ZeroCount(g), 11 - k
  {
    if k < 10 {
      BranchesConsistent(g, p, k + 1);
      if Possible(g, p.row, p.col, k) {
        PlacementRemovesBlank(g, p.row, p.col, k);
        PlacementConsistency(g, p.row, p.col, k);
        SolutionsConsistent(SetCell(g, p.row, p.col, k));
      }
    }
  }

  /** With duplicates among the pre-filled cells no recorded snapshot is
      consistent, though snapshots may still be recorded. */
  lemma InconsistentGridHasNoConsistentSolution(g: Grid)
    requires Shape(g) && !Consistent(g)
    ensures forall x :: x in Solutions(g) ==> !Consistent(x)
  {
    SolutionsFill(g);
    forall x | x in Solutions(g)
      ensures !Consistent(x)
    {
      if Consistent(x) {
        CompletionInheritsConsistency(x, g);
      }
    }
  }

  // ---------------------------------------------------------------------------
  // Completeness

  /** Every consistent completion of the grid is recorded. */
  lemma {:induction false} ConsistentCompletionIsFound(g: Grid, s: Grid)
    requires Shape(g) && Fills(s, g) && Consistent(s)
    ensures s in Solutions(g)
    decreases ZeroCount(g)
  {
    match FirstBlank(g)
    case None =>
      GridsEqual(s, g);
    case Some(p) =>
      var k := s[p.row][p.col];
      var g' := SetCell(g, p.row, p.col, k);
      assert Fills(s, g');
      CompletionInheritsConsistency(s, g');
      PlacementConsistency(g, p.row, p.col, k);
      PlacementRemovesBlank(g, p.row, p.col, k);
      ConsistentCompletionIsFound(g', s);
      BranchesInclude(g, p, 1, k, s);
  }

  /** The digit loop started at `k0` records everything found under any
      accepted digit k >= k0. */
  lemma {:induction false} BranchesInclude(g: Grid, p: Pos, k0: int, k: int, s: Grid)
    requires Shape(g) && p.Valid() && g[p.row][p.col] == 0 && 1 <= k0 <= k <= 9
    requires Possible(g, p.row, p.col, k) && s in Solutions(SetCell(g, p.row, p.col, k))
    ensures s in Branches(g, p, k0)
    decreases k - k0
  {
    if k0 < k {
      BranchesInclude(g, p, k0 + 1, k, s);
    }
  }

  /** For a consistent start the recorded snapshots are exactly its
      consistent completions. */
  lemma SolutionsExactlyConsistentCompletions(g: Grid, s: Grid)
    requires Shape(g) && Consistent(g)
    ensures s in Solutions(g) <==> Fills(s, g) && Consistent(s)
  {
    if s in Solutions(g) {
      SolutionsFill(g);
      SolutionsConsistent(g);
    }
    if Fills(s, g) && Consistent(s) {
      ConsistentCompletionIsFound(g, s);
    }
  }

  // ---------------------------------------------------------------------------
  // Order

  /** `x` precedes `y` in row-major lexicographic order. */
  ghost predicate GridLess(x: Grid, y: Grid) {
    Shape(x) && Shape(y) &&
    exists p: Pos :: p.Valid() && x[p.row][p.col] < y[p.row][p.col] &&
      forall r, c :: OnBoard(r, c) && Before(r, c, p) ==> x[r][c] == y[r][c]
  }

  ghost predicate StrictlyAscending(s: seq<Grid>) {
    forall a, b :: 0 <= a < b < |s| ==> GridLess(s[a], s[b])
  }

  lemma AscendingConcat(s: seq<Grid>, t: seq<Grid>)
    requires StrictlyAscending(s) && StrictlyAscending(t)
    requires forall x, y :: x in s && y in t ==> GridLess(x, y)
    ensures StrictlyAscending(s + t)
  {
    forall a, b | 0 <= a < b < |s + t|
      ensures GridLess((s + t)[a], (s + t)[b])
    {
      if b < |s| {
        assert (s + t)[a] == s[a] && (s + t)[b] == s[b];
      } else if a >= |s| {
        assert (s + t)[a] == t[a - |s|] && (s + t)[b] == t[b - |s|];
      } else {
        assert (s + t)[a] in s && (s + t)[b] in t;
      }
    }
  }

  /** Snapshots are recorded in strictly ascending row-major order: the order
      of the digits chosen at successive blanks. */
  lemma {:induction false} SolutionsAscending(g: Grid)
    requires Shape(g)
    ensures StrictlyAscending(Solutions(g))
    decreases ZeroCount(g), 11
  {
    match FirstBlank(g)
    case None =>
    case Some(p) => BranchesAscending(g, p, 1);
  }

  lemma {:induction false} BranchesAscending(g: Grid, p: Pos, k: int)
    requires Shape(g) && 1 <= k <= 10 && FirstBlank(g) == Some(p)
    ensures StrictlyAscending(Branches(g, p, k))
    decreases ZeroCount(g), 11 - k
  {
    if k < 10 {
      BranchesAscending(g, p, k + 1);
      var here, rest := Attempt(g, p, k), Branches(g, p, k + 1);
      if Possible(g, p.row, p.col, k) {
        var g' := SetCell(g, p.row, p.col, k);
        PlacementRemovesBlank(g, p.row, p.col, k);
        SolutionsAscending(g');
        EarlierDigitFirst(g, p, k);
      }
      AscendingConcat(here, rest);
    }
  }

  /** Everything digit `k` contributes at the first blank precedes
      everything the larger digits contribute. */
  lemma EarlierDigitFirst(g: Grid, p: Pos, k: int)
    requires Shape(g) && 1 <= k <= 9 && FirstBlank(g) == Some(p)
    ensures forall x, y :: x in Attempt(g, p, k) && y in Branches(g, p, k + 1) ==> GridLess(x, y)
  {
    BranchesFill(g, p, k + 1);
    if Possible(g, p.row, p.col, k) {
      var g' := SetCell(g, p.row, p.col, k);
      PlacementRemovesBlank(g, p.row, p.col, k);
      SolutionsFill(g');
      forall x, y | x in Solutions(g') && y in Branches(g, p, k + 1)
        ensures GridLess(x, y)
      {
        AgreeBeforeBlank(g, p, k, x, y);
      }
    }
  }

  lemma AgreeBeforeBlank(g: Grid, p: Pos, k: int, x: Grid, y: Grid)
    requires Shape(g) && 1 <= k <= 9 && FirstBlank(g) == Some(p)
    requires Fills(x, SetCell(g, p.row, p.col, k)) && Fills(y, g) && k < y[p.row][p.col]
    ensures GridLess(x, y)
  {
    var g' := SetCell(g, p.row, p.col, k);
    assert x[p.row][p.col] == k;
    forall r, c | OnBoard(r, c) && Before(r, c, p)
      ensures x[r][c] == y[r][c]
    {
      assert g[r][c] != 0 && g'[r][c] == g[r][c];
    }
  }

  /** No snapshot is recorded twice. */
  lemma NoSolutionTwice(g: Grid)
    requires Shape(g)
    ensures forall a, b :: 0 <= a < b < |Solutions(g)| ==> Solutions(g)[a] != Solutions(g)[b]
  {
    SolutionsAscending(g);
  }
}
