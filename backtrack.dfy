/** Chronological backtracking as a function on grid values: find the first
    0 cell in row-major order, try the digits 1..9 that pass the placement
    check in increasing order, and return the first branch that succeeds.
    The three in-place solvers of the repository (`solve`, `solveSudoku`,
    `solve_sudoku`) are each proved to compute exactly this function. */
module Backtrack {
  import opened Board

  function Search(g: seq<int>): Option<seq<int>>
    requires |g| == 81
    decreases ZeroCount(g), 1, 0
  {
    match FirstEmpty(g)
    case None => Some(g)
    case Some(k) => TryFrom(g, k, 1)
  }

  /** Branches n..9 at the empty cell k, in increasing order. */
  function TryFrom(g: seq<int>, k: nat, n: int): Option<seq<int>>
    requires |g| == 81 && k < 81 && g[k] == 0 && 1 <= n <= 10
    decreases ZeroCount(g), 0, 10 - n
  {
    if n == 10 then None
    else if Free(g, RowOf(k), ColOf(k), n) then
      ZeroCountFill(g, k, n);
      var s := Search(g[k := n]);
      if s.Some? then s else TryFrom(g, k, n + 1)
    else TryFrom(g, k, n + 1)
  }

  /** Soundness: a result is complete, keeps every non-zero cell of the input,
      fills the empty cells with digits 1..9, and is consistent whenever the
      input is. */
  lemma {:induction false} SearchSound(g: seq<int>)
    requires |g| == 81
    ensures Search(g).Some? ==> SoundResult(g, Search(g).value)
    decreases ZeroCount(g), 1, 0
  {
    match FirstEmpty(g)
    case None =>
    case Some(k) => TryFromSound(g, k, 1);
  }

  lemma {:induction false} TryFromSound(g: seq<int>, k: nat, n: int)
    requires |g| == 81 && k < 81 && g[k] == 0 && 1 <= n <= 10
    ensures TryFrom(g, k, n).Some? ==> SoundResult(g, TryFrom(g, k, n).value)
    decreases ZeroCount(g), 0, 10 - n
  {
    if n < 10 {
      if Free(g, RowOf(k), ColOf(k), n) {
        ZeroCountFill(g, k, n);
        var h := g[k := n];
        var s := Search(h);
        if s.Some? {
          SearchSound(h);
          assert Extends(g, h);
          if Consistent(g) {
            FillKeepsConsistent(g, RowOf(k), ColOf(k), n);
            assert h == g[RowOf(k) * 9 + ColOf(k) := n];
          }
        } else {
          TryFromSound(g, k, n + 1);
        }
      } else {
        TryFromSound(g, k, n + 1);
      }
    }
  }

  /** What a successful search promises about its result s. */
  predicate SoundResult(g: seq<int>, s: seq<int>)
    requires |g| == 81
  {
    && |s| == 81
    && Complete(s)
    && Extends(g, s)
    && (forall k | 0 <= k < 81 :: g[k] == 0 ==> 1 <= s[k] <= 9)
    && (Consistent(g) ==> Consistent(s))
  }

  /** Completeness: if any solution agrees with g on g's non-zero cells, the
      search succeeds; so a failed search means g has no solution. */
  lemma {:induction false} SearchComplete(g: seq<int>, s: seq<int>)
    requires |g| == 81 && Solved(s) && Extends(g, s)
    ensures Search(g).Some?
    decreases ZeroCount(g), 1, 0
  {
    match FirstEmpty(g)
    case None =>
    case Some(k) =>
      assert At(s, RowOf(k), ColOf(k)) == s[k];
      TryFromComplete(g, k, 1, s);
  }

  lemma {:induction false} TryFromComplete(g: seq<int>, k: nat, n: int, s: seq<int>)
    requires |g| == 81 && k < 81 && g[k] == 0 && 1 <= n <= 10
    requires Solved(s) && Extends(g, s) && n <= s[k]
    ensures TryFrom(g, k, n).Some?
    decreases ZeroCount(g), 0, 10 - n
  {
    assert n < 10;
    if n == s[k] {
      SolutionDigitFree(g, s, RowOf(k), ColOf(k));
      assert At(g, RowOf(k), ColOf(k)) == g[k] && At(s, RowOf(k), ColOf(k)) == s[k];
      ZeroCountFill(g, k, n);
      SearchComplete(g[k := n], s);
    } else if Free(g, RowOf(k), ColOf(k), n) {
      ZeroCountFill(g, k, n);
      if Search(g[k := n]).None? {
        TryFromComplete(g, k, n + 1, s);
      }
    } else {
      TryFromComplete(g, k, n + 1, s);
    }
  }

  /** A complete grid is its own search result. */
  lemma SearchOfComplete(g: seq<int>)
    requires |g| == 81 && Complete(g)
    ensures Search(g) == Some(g)
  {
    assert FirstEmpty(g).None?;
  }
}
