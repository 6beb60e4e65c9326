/** The vocabulary shared by every solver of the repository: a 9×9 grid of
    integers, 0 for an unknown cell, stored row-major exactly as the C arrays
    `int g[9][9]` are laid out in memory (cell (r, c) is element r * 9 + c).
    Cell values are arbitrary integers, as in C; only 0 is special. */
module Board {

  datatype Option<T> = None | Some(value: T)

  /** The cell in row r, column c. */
  function At(g: seq<int>, r: int, c: int): int
    requires |g| == 81 && 0 <= r < 9 && 0 <= c < 9
  {
    g[r * 9 + c]
  }

  /** Row and column of a row-major cell index. */
  function RowOf(k: int): int { k / 9 }
  function ColOf(k: int): int { k % 9 }

  lemma IndexParts(r: int, c: int)
    requires 0 <= r < 9 && 0 <= c < 9
    ensures 0 <= r * 9 + c < 81
    ensures RowOf(r * 9 + c) == r && ColOf(r * 9 + c) == c
  {
  }

  /** Two cells share a 3×3 box. */
  predicate SameBox(r1: int, c1: int, r2: int, c2: int)
  {
    r1 / 3 == r2 / 3 && c1 / 3 == c2 / 3
  }

  /** Two cells share a row, a column or a box (every cell is its own peer). */
  predicate Peers(r1: int, c1: int, r2: int, c2: int)
  {
    r1 == r2 || c1 == c2 || SameBox(r1, c1, r2, c2)
  }

  /** Digit n occurs nowhere in row r, column c, or the box of (r, c),
      the cell (r, c) itself included. */
  predicate Free(g: seq<int>, r: int, c: int, n: int)
    requires |g| == 81 && 0 <= r < 9 && 0 <= c < 9
  {
    forall i, j | 0 <= i < 9 && 0 <= j < 9 && Peers(i, j, r, c) :: At(g, i, j) != n
  }

  /** No non-zero value occurs twice in a row, a column or a box. */
  predicate Consistent(g: seq<int>)
    requires |g| == 81
  {
    forall r1, c1, r2, c2 |
      0 <= r1 < 9 && 0 <= c1 < 9 && 0 <= r2 < 9 && 0 <= c2 < 9 &&
      (r1 != r2 || c1 != c2) && Peers(r1, c1, r2, c2) && At(g, r1, c1) != 0
      :: At(g, r1, c1) != At(g, r2, c2)
  }

  /** No cell is 0. */
  predicate Complete(g: seq<int>)
  {
    forall k | 0 <= k < |g| :: g[k] != 0
  }

  /** h agrees with g on every non-zero cell of g. */
  predicate Extends(g: seq<int>, h: seq<int>)
  {
    |g| == |h| && forall k | 0 <= k < |g| :: g[k] != 0 ==> h[k] == g[k]
  }

  /** A finished puzzle: consistent, and every cell holds a digit 1..9. */
  predicate Solved(s: seq<int>)
  {
    |s| == 81 && Consistent(s) && forall k | 0 <= k < 81 :: 1 <= s[k] <= 9
  }

  /** The smaller of two counts, as the dispatch loops bound their sends. */
  function Min(a: int, b: int): int { if a <= b then a else b }

  /** Number of 0 cells: the termination measure of every solver. */
  function ZeroCount(g: seq<int>): nat
  {
    if g == [] then 0 else (if g[0] == 0 then 1 else 0) + ZeroCount(g[1..])
  }

  /** The first 0 cell at or after index i in row-major order. */
  function FirstZeroFrom(g: seq<int>, i: nat): (r: Option<nat>)
    decreases |g| - i
    ensures r.Some? ==> i <= r.value < |g| && g[r.value] == 0
    ensures r.Some? ==> forall k | i <= k < r.value :: g[k] != 0
    ensures r.None? ==> forall k | i <= k < |g| :: g[k] != 0
  {
    if i >= |g| then None
    else if g[i] == 0 then Some(i)
    else FirstZeroFrom(g, i + 1)
  }

  /** The first 0 cell in row-major order, as every solver scans for it. */
  function FirstEmpty(g: seq<int>): Option<nat>
  {
    FirstZeroFrom(g, 0)
  }

  /** The first-empty scan characterised: k is the first 0 cell exactly when
      every cell before it is non-zero. */
  lemma FirstEmptyIs(g: seq<int>, k: nat)
    requires k < |g| && g[k] == 0
    requires forall j | 0 <= j < k :: g[j] != 0
    ensures FirstEmpty(g) == Some(k)
  {
  }

  /** The first-empty scan written out in `main` of crook_mpi_solver_1.c and
      crook_mpi_solver_simple.c and in `generate_initial_tasks`: row and col
      stay -1 when the grid has no 0 cell. */
  method ScanFirstEmpty(g: seq<int>) returns (row: int, col: int)
    requires |g| == 81
    ensures row == -1 <==> FirstEmpty(g).None?
    ensures row != -1 ==> 0 <= row < 9 && 0 <= col < 9 && FirstEmpty(g) == Some(row * 9 + col)
    ensures row == -1 ==> col == -1
  {
    row, col := -1, -1;
    var i := 0;
    while i < 9 && row == -1
      invariant 0 <= i <= 9
      invariant row == -1 ==> col == -1 && forall k | 0 <= k < i * 9 :: g[k] != 0
      invariant row != -1 ==> 0 <= row < 9 && 0 <= col < 9 && FirstEmpty(g) == Some(row * 9 + col)
    {
      var j := 0;
      while j < 9
        invariant 0 <= j <= 9
        invariant forall k | 0 <= k < i * 9 + j :: g[k] != 0
      {
        if g[i * 9 + j] == 0 {
          row, col := i, j;
          FirstEmptyIs(g, i * 9 + j);
          break;
        }
        j := j + 1;
      }
      i := i + 1;
    }
  }

  /** The digits 1..n-1 that are Free at (r, c), ascending: the branches a
      solver has tried once its digit loop reaches n. */
  function FreeDigitsBelow(g: seq<int>, r: int, c: int, n: int): seq<int>
    requires |g| == 81 && 0 <= r < 9 && 0 <= c < 9 && 1 <= n <= 10
  {
    if n == 1 then []
    else FreeDigitsBelow(g, r, c, n - 1) + (if Free(g, r, c, n - 1) then [n - 1] else [])
  }

  /** All digits 1..9 that are Free at (r, c), ascending. */
  function FreeDigits(g: seq<int>, r: int, c: int): seq<int>
    requires |g| == 81 && 0 <= r < 9 && 0 <= c < 9
  {
    FreeDigitsBelow(g, r, c, 10)
  }

  /** FreeDigitsBelow lists exactly the Free digits below n, each once,
      ascending. */
  lemma {:induction false} FreeDigitsBelowSpec(g: seq<int>, r: int, c: int, n: int)
    requires |g| == 81 && 0 <= r < 9 && 0 <= c < 9 && 1 <= n <= 10
    ensures var ds := FreeDigitsBelow(g, r, c, n);
      && |ds| <= n - 1
      && (forall d :: d in ds <==> 1 <= d < n && Free(g, r, c, d))
      && (forall a, b | 0 <= a < b < |ds| :: ds[a] < ds[b])
  {
    if n > 1 {
      FreeDigitsBelowSpec(g, r, c, n - 1);
      var prev := FreeDigitsBelow(g, r, c, n - 1);
      assert forall b | 0 <= b < |prev| :: prev[b] in prev;
    }
  }

  /** The digits tried by the time the loop reaches n are a prefix of those
      it would try by m >= n. */
  lemma {:induction false} FreeDigitsBelowPrefix(g: seq<int>, r: int, c: int, n: int, m: int)
    requires |g| == 81 && 0 <= r < 9 && 0 <= c < 9 && 1 <= n <= m <= 10
    ensures var a, b := FreeDigitsBelow(g, r, c, n), FreeDigitsBelow(g, r, c, m);
      |a| <= |b| && a == b[..|a|]
    decreases m - n
  {
    if n < m {
      FreeDigitsBelowPrefix(g, r, c, n, m - 1);
    }
  }

  // ---------------------------------------------------------------------
  // Facts about single-cell updates

  lemma AtUpdate(g: seq<int>, r: int, c: int, v: int, i: int, j: int)
    requires |g| == 81 && 0 <= r < 9 && 0 <= c < 9 && 0 <= i < 9 && 0 <= j < 9
    ensures At(g[r * 9 + c := v], i, j) == if i == r && j == c then v else At(g, i, j)
  {
  }

  /** Writing a Free, non-zero digit into an empty cell keeps the grid
      consistent: the guard every solver puts before a write. */
  lemma {:induction false} FillKeepsConsistent(g: seq<int>, r: int, c: int, n: int)
    requires |g| == 81 && 0 <= r < 9 && 0 <= c < 9
    requires Consistent(g) && Free(g, r, c, n) && n != 0
    ensures Consistent(g[r * 9 + c := n])
  {
    var h := g[r * 9 + c := n];
    forall r1, c1, r2, c2 |
      0 <= r1 < 9 && 0 <= c1 < 9 && 0 <= r2 < 9 && 0 <= c2 < 9 &&
      (r1 != r2 || c1 != c2) && Peers(r1, c1, r2, c2) && At(h, r1, c1) != 0
      ensures At(h, r1, c1) != At(h, r2, c2)
    {
      AtUpdate(g, r, c, n, r1, c1);
      AtUpdate(g, r, c, n, r2, c2);
      if r1 == r && c1 == c {
        assert Peers(r2, c2, r, c);
      } else if r2 == r && c2 == c {
        assert Peers(r1, c1, r, c);
      }
    }
  }

  /** Resetting a cell to 0 keeps the grid consistent: the undo step. */
  lemma {:induction false} ClearKeepsConsistent(g: seq<int>, k: int)
    requires |g| == 81 && 0 <= k < 81 && Consistent(g)
    ensures Consistent(g[k := 0])
  {
    var h := g[k := 0];
    forall r1, c1, r2, c2 |
      0 <= r1 < 9 && 0 <= c1 < 9 && 0 <= r2 < 9 && 0 <= c2 < 9 &&
      (r1 != r2 || c1 != c2) && Peers(r1, c1, r2, c2) && At(h, r1, c1) != 0
      ensures At(h, r1, c1) != At(h, r2, c2)
    {
      AtUpdate(g, RowOf(k), ColOf(k), 0, r1, c1);
      AtUpdate(g, RowOf(k), ColOf(k), 0, r2, c2);
    }
  }

  /** Filling an empty cell removes exactly one 0. */
  lemma {:induction false} ZeroCountFill(g: seq<int>, k: int, n: int)
    requires 0 <= k < |g| && g[k] == 0 && n != 0
    ensures ZeroCount(g[k := n]) + 1 == ZeroCount(g)
    decreases |g|
  {
    if k == 0 {
      assert g[k := n][1..] == g[1..];
    } else {
      assert g[k := n][1..] == g[1..][k - 1 := n];
      ZeroCountFill(g[1..], k - 1, n);
    }
  }

  /** A grid that extends g has at most as many 0 cells, and strictly fewer
      when it differs from g. */
  lemma {:induction false} ZeroCountExtends(g: seq<int>, h: seq<int>)
    requires Extends(g, h)
    ensures ZeroCount(h) <= ZeroCount(g)
    ensures h != g ==> ZeroCount(h) < ZeroCount(g)
    decreases |g|
  {
    if g != [] {
      assert Extends(g[1..], h[1..]) by {
        forall k | 0 <= k < |g[1..]| ensures g[1..][k] != 0 ==> h[1..][k] == g[1..][k] {
          assert g[1..][k] == g[k + 1] && h[1..][k] == h[k + 1];
        }
      }
      ZeroCountExtends(g[1..], h[1..]);
      if h != g && h[1..] == g[1..] {
        assert h[0] != g[0] by {
          assert h == [h[0]] + h[1..] && g == [g[0]] + g[1..];
        }
      }
    }
  }

  lemma ExtendsTrans(a: seq<int>, b: seq<int>, c: seq<int>)
    requires Extends(a, b) && Extends(b, c)
    ensures Extends(a, c)
  {
  }

  /** In a solution that extends g, the digit at a cell that is empty in g is
      Free in g: the solution cannot be excluded by the placement check. */
  lemma {:induction false} SolutionDigitFree(g: seq<int>, s: seq<int>, r: int, c: int)
    requires |g| == 81 && Solved(s) && Extends(g, s) && 0 <= r < 9 && 0 <= c < 9
    requires At(g, r, c) == 0
    ensures Free(g, r, c, At(s, r, c))
  {
    var d := At(s, r, c);
    forall i, j | 0 <= i < 9 && 0 <= j < 9 && Peers(i, j, r, c)
      ensures At(g, i, j) != d
    {
      if i == r && j == c {
        assert d != 0;
      } else if At(g, i, j) != 0 {
        assert g[i * 9 + j] != 0;
        assert At(s, i, j) == At(g, i, j);
        assert Peers(r, c, i, j);
        assert At(s, r, c) != At(s, i, j);
      }
    }
  }
}
