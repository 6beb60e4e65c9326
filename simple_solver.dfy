/** crook_mpi_solver_simple.c: the placement check, the solved test, the
    in-place backtracking `solve`, the master's bounded first dispatch and the
    worker's single reply. */
module SimpleSolver {
  import opened Board
  import opened Backtrack

  const TagPuzzle := 1

  /** `is_valid`: num is absent from the row, the column and the box whose
      origin is (row / 3 * 3, col / 3 * 3). */
  function IsValid(g: seq<int>, row: int, col: int, num: int): (ok: bool)
    requires |g| == 81 && 0 <= row < 9 && 0 <= col < 9
    ensures ok <==> Free(g, row, col, num)
  {
    var startRow := row / 3 * 3;
    var startCol := col / 3 * 3;
    && (forall i | 0 <= i < 9 :: At(g, row, i) != num && At(g, i, col) != num)
    && (forall i, j | startRow <= i < startRow + 3 && startCol <= j < startCol + 3 ::
          At(g, i, j) != num)
  }

  /** `is_solved`: no cell is 0. */
  function IsSolved(g: seq<int>): (ok: bool)
    requires |g| == 81
    ensures ok <==> Complete(g)
  {
    assert forall k | 0 <= k < 81 :: g[k] == At(g, RowOf(k), ColOf(k));
    forall i, j | 0 <= i < 9 && 0 <= j < 9 :: At(g, i, j) != 0
  }

  /** `solve`: chronological backtracking in place. On success the grid is the
      search result; on failure every tentative write has been undone. */
  method Solve(p: array<int>) returns (ok: bool)
    requires p.Length == 81
    modifies p
    ensures ok == Search(old(p[..])).Some?
    ensures ok ==> p[..] == Search(old(p[..])).value
    ensures !ok ==> p[..] == old(p[..])
    decreases ZeroCount(p[..])
  {
    ghost var g0 := p[..];
    var row := 0;
    while row < 9
      invariant 0 <= row <= 9 && p[..] == g0
      invariant forall k | 0 <= k < row * 9 :: g0[k] != 0
    {
      var col := 0;
      while col < 9
        invariant 0 <= col <= 9 && p[..] == g0
        invariant forall k | 0 <= k < row * 9 + col :: g0[k] != 0
      {
        if p[row * 9 + col] == 0 {
          ghost var k := row * 9 + col;
          IndexParts(row, col);
          FirstEmptyIs(g0, k);
          var num := 1;
          while num <= 9
            invariant 1 <= num <= 10 && p[..] == g0
            invariant Search(g0) == TryFrom(g0, k, num)
          {
            if IsValid(p[..], row, col, num) {
              p[row * 9 + col] := num;
              ZeroCountFill(g0, k, num);
              ok := Solve(p);
              if ok {
                return;
              }
              p[row * 9 + col] := 0;
              assert p[..] == g0[k := num][k := 0];
            }
            num := num + 1;
          }
          return false;
        }
        col := col + 1;
      }
      row := row + 1;
    }
    return true;
  }

  /** One message of the master's first dispatch: a grid for rank `dest`. */
  datatype Send = Send(dest: int, grid: seq<int>)

  /** The rank-0 prologue (lines 87-114): a puzzle with no 0 cell is reported
      as already solved; otherwise the first empty cell is found and the
      valid digits are handed out by SendGuesses. */
  method MasterStart(puzzle: seq<int>, size: int) returns (alreadySolved: bool, sends: seq<Send>)
    requires |puzzle| == 81 && size >= 1
    ensures alreadySolved <==> Complete(puzzle)
    ensures alreadySolved ==> sends == []
    ensures !alreadySolved ==>
      var k := FirstEmpty(puzzle).value;
      sends == GuessSends(puzzle, k, FreeDigits(puzzle, RowOf(k), ColOf(k)), size)
  {
    sends := [];
    alreadySolved := IsSolved(puzzle);
    if alreadySolved {
      return;
    }
    var emptyRow, emptyCol := ScanFirstEmpty(puzzle);
    IndexParts(emptyRow, emptyCol);
    sends := SendGuesses(puzzle, emptyRow, emptyCol, size);
  }

  /** The messages of the first dispatch: the t-th valid digit ds[t] (t from
      0), written into a copy of the puzzle at cell k, goes to rank t + 1,
      for the first size - 1 digits. */
  function GuessSends(puzzle: seq<int>, k: int, ds: seq<int>, size: int): seq<Send>
    requires 0 <= k < |puzzle|
  {
    var m := if size - 1 < 0 then 0 else Min(size - 1, |ds|);
    seq(m, t requires 0 <= t < m => Send(t + 1, puzzle[k := ds[t]]))
  }

  /** What the first dispatch promises at the empty cell (row, col): at most
      size - 1 messages, one per valid digit while ranks last, to distinct
      ranks 1..size-1 in ascending order; each message carries the puzzle
      with a digit 1..9 that passes `is_valid` written into the empty cell
      and nothing else changed, the digits ascending, so each message is
      consistent when the puzzle is. */
  lemma GuessSendsSpec(puzzle: seq<int>, row: int, col: int, size: int)
    requires |puzzle| == 81 && 0 <= row < 9 && 0 <= col < 9 && size >= 1
    requires puzzle[row * 9 + col] == 0
    ensures var k := row * 9 + col;
      var ds := FreeDigits(puzzle, row, col);
      var sends := GuessSends(puzzle, k, ds, size);
      && |sends| == Min(size - 1, |ds|) <= 9
      && (forall t | 0 <= t < |sends| ::
            && 1 <= sends[t].dest < size
            && |sends[t].grid| == 81
            && 1 <= sends[t].grid[k] <= 9
            && Free(puzzle, row, col, sends[t].grid[k])
            && Extends(puzzle, sends[t].grid)
            && (forall j | 0 <= j < 81 && j != k :: sends[t].grid[j] == puzzle[j])
            && (Consistent(puzzle) ==> Consistent(sends[t].grid)))
      && (forall a, b | 0 <= a < b < |sends| ::
            sends[a].dest < sends[b].dest && sends[a].grid[k] < sends[b].grid[k])
  {
    var k := row * 9 + col;
    var ds := FreeDigits(puzzle, row, col);
    FreeDigitsBelowSpec(puzzle, row, col, 10);
    var sends := GuessSends(puzzle, k, ds, size);
    forall t | 0 <= t < |sends|
      ensures 1 <= sends[t].grid[k] <= 9 && Free(puzzle, row, col, sends[t].grid[k])
      ensures Consistent(puzzle) ==> Consistent(sends[t].grid)
    {
      assert ds[t] in ds;
      if Consistent(puzzle) {
        FillKeepsConsistent(puzzle, row, col, ds[t]);
      }
    }
  }

  /** The send loop (lines 107-114): digits 1..9 in order; each one that
      passes `is_valid` is sent to the next rank while fewer than size - 1
      tasks are out. */
  method SendGuesses(puzzle: seq<int>, row: int, col: int, size: int) returns (sends: seq<Send>)
    requires |puzzle| == 81 && 0 <= row < 9 && 0 <= col < 9 && size >= 1
    ensures sends == GuessSends(puzzle, row * 9 + col, FreeDigits(puzzle, row, col), size)
  {
    var k := row * 9 + col;
    ghost var taken: seq<int> := [];
    sends := [];
    var sent := 0;
    var num := 1;
    while num <= 9 && sent < size - 1
      invariant 1 <= num <= 10 && sent == |sends| == |taken| <= size - 1
      invariant taken == FreeDigitsBelow(puzzle, row, col, num)
      invariant forall t | 0 <= t < |sends| :: sends[t] == Send(t + 1, puzzle[k := taken[t]])
    {
      if IsValid(puzzle, row, col, num) {
        var newP := puzzle[k := num];
        sent := sent + 1;
        sends := sends + [Send(sent, newP)];
        taken := taken + [num];
      }
      num := num + 1;
    }
    ghost var ds := FreeDigits(puzzle, row, col);
    FreeDigitsBelowPrefix(puzzle, row, col, num, 10);
    assert |taken| == Min(size - 1, |ds|);
    ghost var expected := GuessSends(puzzle, k, ds, size);
    assert |sends| == |expected|;
    forall t | 0 <= t < |sends| ensures sends[t] == expected[t]
    {
      assert ds[t] == taken[t];
    }
    assert sends == expected;
  }

  /** The worker (lines 129-136): a TAG_PUZZLE message is solved in place and
      sent back with TAG_DONE only when `solve` succeeds; a failed search or
      any other tag produces no reply. */
  method WorkerReply(tag: int, puzzle: seq<int>) returns (reply: Option<seq<int>>)
    requires |puzzle| == 81
    ensures reply.Some? <==> tag == TagPuzzle && Search(puzzle).Some?
    ensures reply.Some? ==> reply.value == Search(puzzle).value
  {
    reply := None;
    if tag == TagPuzzle {
      var p := new int[81](i => if 0 <= i < 81 then puzzle[i] else 0);
      assert p[..] == puzzle;
      var ok := Solve(p);
      if ok {
        reply := Some(p[..]);
      }
    }
  }
}
