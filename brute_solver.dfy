/** brute_solver.c: the single-process reference solver. */
module BruteSolver {
  import opened Board
  import opened Backtrack

  /** `isSafe`: num is absent from the row, the column and the box whose
      origin is (row - row % 3, col - col % 3). */
  function IsSafe(board: seq<int>, row: int, col: int, num: int): (ok: bool)
    requires |board| == 81 && 0 <= row < 9 && 0 <= col < 9
    ensures ok <==> Free(board, row, col, num)
  {
    var startRow := row - row % 3;
    var startCol := col - col % 3;
    && (forall x | 0 <= x < 9 :: At(board, row, x) != num && At(board, x, col) != num)
    && (forall i, j | startRow <= i < startRow + 3 && startCol <= j < startCol + 3 ::
          At(board, i, j) != num)
  }

  /** `solveSudoku`: scan with a flag for the first 0 cell, then try 1..9,
      resetting the cell after every failed recursion. */
  method SolveSudoku(board: array<int>) returns (solved: bool)
    requires board.Length == 81
    modifies board
    ensures solved == Search(old(board[..])).Some?
    ensures solved ==> board[..] == Search(old(board[..])).value
    ensures !solved ==> board[..] == old(board[..])
    decreases ZeroCount(board[..])
  {
    ghost var g0 := board[..];
    var row, col := 0, 0;
    var empty := false;
    while row < 9
      invariant 0 <= row <= 9 && !empty
      invariant forall k | 0 <= k < row * 9 :: g0[k] != 0
    {
      col := 0;
      while col < 9
        invariant 0 <= col <= 9 && !empty
        invariant forall k | 0 <= k < row * 9 + col :: g0[k] != 0
      {
        if board[row * 9 + col] == 0 {
          empty := true;
          break;
        }
        col := col + 1;
      }
      if empty {
        break;
      }
      row := row + 1;
    }

    if !empty {
      return true;
    }

    ghost var k := row * 9 + col;
    IndexParts(row, col);
    FirstEmptyIs(g0, k);
    var num := 1;
    while num <= 9
      invariant 1 <= num <= 10 && board[..] == g0
      invariant Search(g0) == TryFrom(g0, k, num)
    {
      if IsSafe(board[..], row, col, num) {
        board[row * 9 + col] := num;
        ZeroCountFill(g0, k, num);
        solved := SolveSudoku(board);
        if solved {
          return;
        }
        board[row * 9 + col] := 0;
        assert board[..] == g0[k := num][k := 0];
      }
      num := num + 1;
    }
    return false;
  }
}
