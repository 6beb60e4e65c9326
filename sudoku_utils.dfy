/** sudoku_utils.c: the placement check, the in-place solver run by every
    worker of sudoku_mpi.c, and the work partitioner. */
module SudokuUtils {
  import opened Board
  import opened Backtrack

  /** `SudokuTask`: a grid and its solved flag (an int in C). */
  datatype SudokuTask = SudokuTask(grid: seq<int>, solved: int)

  /** `is_safe`: num is absent from the row, the column and the box whose
      origin is (row - row % 3, col - col % 3). */
  function IsSafe(grid: seq<int>, row: int, col: int, num: int): (ok: bool)
    requires |grid| == 81 && 0 <= row < 9 && 0 <= col < 9
    ensures ok <==> Free(grid, row, col, num)
  {
    var startRow := row - row % 3;
    var startCol := col - col % 3;
    && (forall x | 0 <= x < 9 :: At(grid, row, x) != num && At(grid, x, col) != num)
    && (forall i, j | startRow <= i < startRow + 3 && startCol <= j < startCol + 3 ::
          At(grid, i, j) != num)
  }

  /** `solve_sudoku`: scan (row and col start at -1) for the first 0 cell,
      then try 1..9, resetting the cell after every failed recursion. */
  method SolveSudoku(grid: array<int>) returns (solved: bool)
    requires grid.Length == 81
    modifies grid
    ensures solved == Search(old(grid[..])).Some?
    ensures solved ==> grid[..] == Search(old(grid[..])).value
    ensures !solved ==> grid[..] == old(grid[..])
    decreases ZeroCount(grid[..])
  {
    ghost var g0 := grid[..];
    var row, col := -1, -1;
    var empty := false;
    var i := 0;
    while i < 9 && !empty
      invariant 0 <= i <= 9 && grid[..] == g0
      invariant !empty ==> forall k | 0 <= k < i * 9 :: g0[k] != 0
      invariant empty ==> 0 <= row < 9 && 0 <= col < 9 && FirstEmpty(g0) == Some(row * 9 + col)
    {
      var j := 0;
      while j < 9
        invariant 0 <= j <= 9 && grid[..] == g0
        invariant forall k | 0 <= k < i * 9 + j :: g0[k] != 0
      {
        if grid[i * 9 + j] == 0 {
          row, col := i, j;
          empty := true;
          FirstEmptyIs(g0, i * 9 + j);
          break;
        }
        j := j + 1;
      }
      i := i + 1;
    }
    if !empty {
      return true;
    }

    ghost var k := row * 9 + col;
    IndexParts(row, col);
    var num := 1;
    while num <= 9
      invariant 1 <= num <= 10 && grid[..] == g0
      invariant Search(g0) == TryFrom(g0, k, num)
    {
      if IsSafe(grid[..], row, col, num) {
        grid[row * 9 + col] := num;
        ZeroCountFill(g0, k, num);
        solved := SolveSudoku(grid);
        if solved {
          return;
        }
        grid[row * 9 + col] := 0;
        assert grid[..] == g0[k := num][k := 0];
      }
      num := num + 1;
    }
    return false;
  }

  /** The tasks `generate_initial_tasks` produces: none when the grid has no
      0 cell; otherwise, for each digit that is Free at the first 0 cell, in
      ascending order, a copy of the grid with that digit written there and
      the solved flag 0. */
  function Partition(g: seq<int>): seq<SudokuTask>
    requires |g| == 81
  {
    match FirstEmpty(g)
    case None => []
    case Some(k) =>
      var ds := FreeDigits(g, RowOf(k), ColOf(k));
      seq(|ds|, t requires 0 <= t < |ds| => SudokuTask(g[k := ds[t]], 0))
  }

  /** `generate_initial_tasks`: fills tasks[0..count) with Partition(grid)
      and leaves the rest of the array alone; the grid is only read. */
  method GenerateInitialTasks(grid: array<int>, tasks: array<SudokuTask>) returns (count: int)
    requires grid.Length == 81 && tasks.Length >= 9
    modifies tasks
    ensures 0 <= count <= tasks.Length
    ensures tasks[..count] == Partition(grid[..])
    ensures tasks[count..] == old(tasks[count..])
  {
    var g := grid[..];
    var row, col := ScanFirstEmpty(g);
    if row == -1 {
      return 0;
    }
    var k := row * 9 + col;
    IndexParts(row, col);
    ghost var taken: seq<int> := [];
    count := 0;
    var num := 1;
    while num <= 9
      invariant 1 <= num <= 10
      invariant taken == FreeDigitsBelow(g, row, col, num)
      invariant count == |taken| <= num - 1
      invariant forall t | 0 <= t < count :: tasks[t] == SudokuTask(g[k := taken[t]], 0)
      invariant forall t | count <= t < tasks.Length :: tasks[t] == old(tasks[t])
    {
      if IsSafe(g, row, col, num) {
        tasks[count] := SudokuTask(g[k := num], 0);
        count := count + 1;
        taken := taken + [num];
      }
      num := num + 1;
    }
    assert tasks[..count] == Partition(g);
  }

  // ---------------------------------------------------------------------
  // What partitioning guarantees

  /** Between 0 and 9 tasks, none when there is no 0 cell; task t holds the
      t-th Free digit at the first 0 cell, digits strictly ascending, every
      task differs from the grid only at that cell and is marked unsolved. */
  lemma PartitionShape(g: seq<int>)
    requires |g| == 81
    ensures |Partition(g)| <= 9
    ensures FirstEmpty(g).None? ==> Partition(g) == []
    ensures FirstEmpty(g).Some? ==>
      var k := FirstEmpty(g).value;
      var ts := Partition(g);
      && |ts| == |FreeDigits(g, RowOf(k), ColOf(k))|
      && (forall t | 0 <= t < |ts| ::
            && ts[t].solved == 0
            && |ts[t].grid| == 81
            && ts[t].grid[k] == FreeDigits(g, RowOf(k), ColOf(k))[t]
            && 1 <= ts[t].grid[k] <= 9
            && Free(g, RowOf(k), ColOf(k), ts[t].grid[k])
            && (forall j | 0 <= j < 81 && j != k :: ts[t].grid[j] == g[j]))
      && (forall a, b | 0 <= a < b < |ts| :: ts[a].grid[k] < ts[b].grid[k])
  {
    match FirstEmpty(g)
    case None =>
    case Some(k) =>
      var ds := FreeDigits(g, RowOf(k), ColOf(k));
      FreeDigitsBelowSpec(g, RowOf(k), ColOf(k), 10);
      assert forall t | 0 <= t < |ds| :: ds[t] in ds;
  }

  /** Every task of a consistent grid is consistent and has one 0 cell less. */
  lemma PartitionConsistent(g: seq<int>)
    requires |g| == 81 && Consistent(g)
    ensures forall t | 0 <= t < |Partition(g)| ::
      && Consistent(Partition(g)[t].grid)
      && Extends(g, Partition(g)[t].grid)
      && ZeroCount(Partition(g)[t].grid) + 1 == ZeroCount(g)
  {
    match FirstEmpty(g)
    case None =>
    case Some(k) =>
      var r, c := RowOf(k), ColOf(k);
      var ds := FreeDigits(g, r, c);
      FreeDigitsBelowSpec(g, r, c, 10);
      forall t | 0 <= t < |ds|
        ensures Consistent(g[k := ds[t]]) && Extends(g, g[k := ds[t]])
        ensures ZeroCount(g[k := ds[t]]) + 1 == ZeroCount(g)
      {
        assert ds[t] in ds;
        FillKeepsConsistent(g, r, c, ds[t]);
        assert r * 9 + c == k;
        ZeroCountFill(g, k, ds[t]);
      }
  }

  /** No solution is lost by partitioning: every solution that agrees with g
      on g's non-zero cells agrees with exactly one task. */
  lemma PartitionCovers(g: seq<int>, s: seq<int>)
    requires |g| == 81 && Solved(s) && Extends(g, s) && FirstEmpty(g).Some?
    ensures exists t | 0 <= t < |Partition(g)| :: Extends(Partition(g)[t].grid, s)
    ensures forall a, b | 0 <= a < |Partition(g)| && 0 <= b < |Partition(g)| ::
      Extends(Partition(g)[a].grid, s) && Extends(Partition(g)[b].grid, s) ==> a == b
  {
    var k := FirstEmpty(g).value;
    var r, c := RowOf(k), ColOf(k);
    var ds := FreeDigits(g, r, c);
    var ts := Partition(g);
    FreeDigitsBelowSpec(g, r, c, 10);
    SolutionDigitFree(g, s, r, c);
    assert At(s, r, c) == s[k] && At(g, r, c) == g[k];
    assert s[k] in ds;
    var t :| 0 <= t < |ds| && ds[t] == s[k];
    assert Extends(ts[t].grid, s);
    forall a, b | 0 <= a < |ts| && 0 <= b < |ts| && Extends(ts[a].grid, s) && Extends(ts[b].grid, s)
      ensures a == b
    {
      assert ts[a].grid[k] == ds[a] && ts[b].grid[k] == ds[b];
      assert ds[a] in ds && ds[b] in ds;
      assert ds[a] == s[k] == ds[b];
    }
  }

  /** Sequential search of g succeeds exactly when the search of some task
      succeeds: distributing the tasks explores the same space. */
  lemma PartitionSolvable(g: seq<int>)
    requires |g| == 81 && FirstEmpty(g).Some?
    ensures Search(g).Some? <==>
      exists t | 0 <= t < |Partition(g)| :: Search(Partition(g)[t].grid).Some?
  {
    var k := FirstEmpty(g).value;
    var r, c := RowOf(k), ColOf(k);
    var ds := FreeDigits(g, r, c);
    var ts := Partition(g);
    FreeDigitsBelowSpec(g, r, c, 10);
    if Search(g).Some? {
      var d := TryFromSucceeds(g, k, 1);
      assert d in ds;
      var t :| 0 <= t < |ds| && ds[t] == d;
      assert Search(ts[t].grid).Some?;
    }
    if t :| 0 <= t < |ts| && Search(ts[t].grid).Some? {
      assert ds[t] in ds;
      TryFromReaches(g, k, 1, ds[t]);
    }
  }

  /** A successful TryFrom succeeded on some Free digit d >= n. */
  lemma {:induction false} TryFromSucceeds(g: seq<int>, k: nat, n: int) returns (d: int)
    requires |g| == 81 && k < 81 && g[k] == 0 && 1 <= n <= 10
    requires TryFrom(g, k, n).Some?
    ensures n <= d <= 9 && Free(g, RowOf(k), ColOf(k), d) && Search(g[k := d]).Some?
    decreases 10 - n
  {
    if Free(g, RowOf(k), ColOf(k), n) && Search(g[k := n]).Some? {
      d := n;
    } else {
      d := TryFromSucceeds(g, k, n + 1);
    }
  }

  /** TryFrom from n reaches every Free digit d >= n: if the search below d
      succeeds, so does TryFrom. */
  lemma {:induction false} TryFromReaches(g: seq<int>, k: nat, n: int, d: int)
    requires |g| == 81 && k < 81 && g[k] == 0 && 1 <= n <= d <= 9
    requires Free(g, RowOf(k), ColOf(k), d) && Search(g[k := d]).Some?
    ensures TryFrom(g, k, n).Some?
    decreases d - n
  {
    if n < d && !(Free(g, RowOf(k), ColOf(k), n) && Search(g[k := n]).Some?) {
      TryFromReaches(g, k, n + 1, d);
    }
  }
}
