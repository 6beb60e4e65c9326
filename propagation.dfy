/** The constraint propagation of crook_mpi_solver_1.c as functions on grid
    values: the candidate table, one pass of naked singles, one pass of
    row-wise hidden singles, and their fixed point. The in-place class
    CrookSolver.Solver is proved to compute exactly these. */
module Propagation {
  import opened Board

  /** The flag `initialize_candidates` stores for digit n at (i, j): 1 when
      the cell is empty and n passes the placement check there. */
  function CandidateBit(g: seq<int>, i: int, j: int, n: int): int
    requires |g| == 81 && 0 <= i < 9 && 0 <= j < 9
  {
    if At(g, i, j) == 0 && Free(g, i, j, n) then 1 else 0
  }

  /** h is g with some empty cells filled with digits 1..9: no non-zero cell
      changes and nothing is cleared. */
  predicate Fills(g: seq<int>, h: seq<int>)
  {
    && Extends(g, h)
    && forall k | 0 <= k < |g| :: g[k] == 0 ==> h[k] == 0 || 1 <= h[k] <= 9
  }

  lemma FillsTrans(a: seq<int>, b: seq<int>, c: seq<int>)
    requires Fills(a, b) && Fills(b, c)
    ensures Fills(a, c)
  {
    ExtendsTrans(a, b, c);
  }

  // ---------------------------------------------------------------------
  // Naked singles (lines 36-56)

  /** Cell (i, j) is empty and exactly one digit is Free there. */
  predicate NakedSingleAt(g: seq<int>, i: int, j: int)
    requires |g| == 81 && 0 <= i < 9 && 0 <= j < 9
  {
    At(g, i, j) == 0 && |FreeDigits(g, i, j)| == 1
  }

  /** Cell (i, j) of a naked-singles pass: a naked single gets its only
      digit. */
  function NakedStep(g: seq<int>, i: int, j: int): (h: seq<int>)
    requires |g| == 81 && 0 <= i < 9 && 0 <= j < 9
    ensures |h| == 81
  {
    if NakedSingleAt(g, i, j) then g[i * 9 + j := FreeDigits(g, i, j)[0]] else g
  }

  /** The pass from cell (i, j) on, in row-major order. Candidates are
      recomputed after every fill, so each cell is judged against the grid
      as the earlier cells of the same pass left it. */
  function NakedFrom(g: seq<int>, i: int, j: int): (h: seq<int>)
    requires |g| == 81 && 0 <= i <= 9 && 0 <= j <= 9
    ensures |h| == 81
    decreases 9 - i, 9 - j
  {
    if i == 9 then g
    else if j == 9 then NakedFrom(g, i + 1, 0)
    else NakedFrom(NakedStep(g, i, j), i, j + 1)
  }

  /** A naked-singles fill writes the only Free digit, a digit 1..9, into an
      empty cell, and keeps a consistent grid consistent. */
  lemma NakedStepSpec(g: seq<int>, i: int, j: int)
    requires |g| == 81 && 0 <= i < 9 && 0 <= j < 9
    ensures Fills(g, NakedStep(g, i, j))
    ensures NakedStep(g, i, j) != g <==> NakedSingleAt(g, i, j)
    ensures Consistent(g) ==> Consistent(NakedStep(g, i, j))
  {
    if NakedSingleAt(g, i, j) {
      var ds := FreeDigits(g, i, j);
      FreeDigitsBelowSpec(g, i, j, 10);
      assert ds[0] in ds;
      assert NakedStep(g, i, j)[i * 9 + j] != g[i * 9 + j];
      if Consistent(g) {
        FillKeepsConsistent(g, i, j, ds[0]);
      }
    }
  }

  /** No cell at or after (i, j) in row-major order is a naked single. */
  predicate NoNakedFrom(g: seq<int>, i: int, j: int)
    requires |g| == 81
  {
    forall r, c | 0 <= r < 9 && 0 <= c < 9 && (i < r || (i == r && j <= c)) ::
      !NakedSingleAt(g, r, c)
  }

  lemma NoNakedFromNext(g: seq<int>, i: int, j: int)
    requires |g| == 81 && 0 <= i < 9 && 0 <= j <= 9
    ensures j == 9 ==> (NoNakedFrom(g, i, j) <==> NoNakedFrom(g, i + 1, 0))
    ensures j < 9 ==> (NoNakedFrom(g, i, j)
      <==> !NakedSingleAt(g, i, j) && NoNakedFrom(g, i, j + 1))
  {
  }

  /** A whole pass only fills empty cells with digits and keeps consistency;
      it changes the grid exactly when some cell from (i, j) on is a naked
      single of the grid as it stands at the start of the pass. */
  lemma NakedFromSpec(g: seq<int>, i: int, j: int)
    requires |g| == 81 && 0 <= i <= 9 && 0 <= j <= 9
    ensures Fills(g, NakedFrom(g, i, j))
    ensures Consistent(g) ==> Consistent(NakedFrom(g, i, j))
    ensures NakedFrom(g, i, j) == g <==> NoNakedFrom(g, i, j)
  {
    NakedFromFills(g, i, j);
    NakedFromFixed(g, i, j);
  }

  lemma {:induction false} NakedFromFills(g: seq<int>, i: int, j: int)
    requires |g| == 81 && 0 <= i <= 9 && 0 <= j <= 9
    ensures Fills(g, NakedFrom(g, i, j))
    ensures Consistent(g) ==> Consistent(NakedFrom(g, i, j))
    decreases 9 - i, 9 - j, 1
  {
    if i == 9 {
    } else if j == 9 {
      NakedFromFills(g, i + 1, 0);
    } else {
      NakedFromFillsStep(g, i, j);
    }
  }

  lemma {:induction false} NakedFromFillsStep(g: seq<int>, i: int, j: int)
    requires |g| == 81 && 0 <= i < 9 && 0 <= j < 9
    ensures Fills(g, NakedFrom(g, i, j))
    ensures Consistent(g) ==> Consistent(NakedFrom(g, i, j))
    decreases 9 - i, 9 - j, 0
  {
    var h := NakedStep(g, i, j);
    NakedStepSpec(g, i, j);
    NakedFromFills(h, i, j + 1);
    FillsTrans(g, h, NakedFrom(h, i, j + 1));
  }

  lemma {:induction false} NakedFromFixed(g: seq<int>, i: int, j: int)
    requires |g| == 81 && 0 <= i <= 9 && 0 <= j <= 9
    ensures NakedFrom(g, i, j) == g <==> NoNakedFrom(g, i, j)
    decreases 9 - i, 9 - j, 1
  {
    if i == 9 {
    } else if j == 9 {
      NoNakedFromNext(g, i, j);
      NakedFromFixed(g, i + 1, 0);
    } else {
      NakedFromFixedStep(g, i, j);
    }
  }

  /** The step case of NakedFromFixed: cell (i, j) itself is examined. */
  lemma {:induction false} NakedFromFixedStep(g: seq<int>, i: int, j: int)
    requires |g| == 81 && 0 <= i < 9 && 0 <= j < 9
    ensures NakedFrom(g, i, j) == g <==> NoNakedFrom(g, i, j)
    decreases 9 - i, 9 - j, 0
  {
    NoNakedFromNext(g, i, j);
    if NakedSingleAt(g, i, j) {
      NakedFromChanges(g, i, j);
    } else {
      assert NakedStep(g, i, j) == g;
      NakedFromFixed(g, i, j + 1);
    }
  }

  /** A pass that meets a naked single at its first cell changes the grid. */
  lemma NakedFromChanges(g: seq<int>, i: int, j: int)
    requires |g| == 81 && 0 <= i < 9 && 0 <= j < 9 && NakedSingleAt(g, i, j)
    ensures NakedFrom(g, i, j) != g
  {
    var h := NakedStep(g, i, j);
    NakedStepSpec(g, i, j);
    NakedFromFills(h, i, j + 1);
    var k := i * 9 + j;
    assert g[k] == 0 && h[k] != 0;
    assert NakedFrom(g, i, j)[k] != g[k];
  }

  /** One cell of a pass loses one 0 cell exactly when the cell is a naked
      single. */
  lemma NakedAdvance(g: seq<int>, i: int, j: int)
    requires |g| == 81 && 0 <= i < 9 && 0 <= j < 9
    ensures ZeroCount(NakedStep(g, i, j))
      + (if NakedSingleAt(g, i, j) then 1 else 0) == ZeroCount(g)
  {
    if NakedSingleAt(g, i, j) {
      var ds := FreeDigits(g, i, j);
      FreeDigitsBelowSpec(g, i, j, 10);
      assert ds[0] in ds;
      ZeroCountFill(g, i * 9 + j, ds[0]);
    }
  }

  /** Row i of a naked-singles pass up to (not including) column j, as the
      in-place loop leaves the grid. */
  function NakedRowPrefix(g: seq<int>, i: int, j: int): (h: seq<int>)
    requires |g| == 81 && 0 <= i < 9 && 0 <= j <= 9
    ensures |h| == 81
    decreases j
  {
    if j == 0 then g else NakedStep(NakedRowPrefix(g, i, j - 1), i, j - 1)
  }

  /** The rest of the pass after a row prefix is the pass from the start of
      the row. */
  lemma {:induction false} NakedRowPrefixFrom(g: seq<int>, i: int, j: int)
    requires |g| == 81 && 0 <= i < 9 && 0 <= j <= 9
    ensures NakedFrom(NakedRowPrefix(g, i, j), i, j) == NakedFrom(g, i, 0)
    decreases j
  {
    if j > 0 {
      NakedRowPrefixFrom(g, i, j - 1);
      var q := NakedRowPrefix(g, i, j - 1);
      assert NakedFrom(q, i, j - 1) == NakedFrom(NakedStep(q, i, j - 1), i, j);
    }
  }

  /** A naked-singles fill never contradicts a solution: the solution's value
      at a naked single is a Free digit, hence the only one. */
  lemma NakedStepKeepsSolution(g: seq<int>, i: int, j: int, s: seq<int>)
    requires |g| == 81 && 0 <= i < 9 && 0 <= j < 9 && Solved(s) && Extends(g, s)
    ensures Extends(NakedStep(g, i, j), s)
  {
    if NakedSingleAt(g, i, j) {
      var ds := FreeDigits(g, i, j);
      FreeDigitsBelowSpec(g, i, j, 10);
      SolutionDigitFree(g, s, i, j);
      assert At(s, i, j) in ds;
      assert ds == [ds[0]];
    }
  }

  lemma {:induction false} NakedFromKeepsSolution(g: seq<int>, i: int, j: int, s: seq<int>)
    requires |g| == 81 && 0 <= i <= 9 && 0 <= j <= 9 && Solved(s) && Extends(g, s)
    ensures Extends(NakedFrom(g, i, j), s)
    decreases 9 - i, 9 - j
  {
    if i == 9 {
    } else if j == 9 {
      NakedFromKeepsSolution(g, i + 1, 0, s);
    } else {
      NakedStepKeepsSolution(g, i, j, s);
      NakedFromKeepsSolution(NakedStep(g, i, j), i, j + 1, s);
    }
  }

  // ---------------------------------------------------------------------
  // Hidden singles, rows only (lines 58-77)

  /** The columns j < m of row i whose cell is empty and admits n, in
      increasing order: the cells the inner loop of lines 63-68 counts. */
  function RowPlacesBelow(g: seq<int>, i: int, n: int, m: int): seq<int>
    requires |g| == 81 && 0 <= i < 9 && 0 <= m <= 9
  {
    if m == 0 then []
    else RowPlacesBelow(g, i, n, m - 1) + (if At(g, i, m - 1) == 0
      && Free(g, i, m - 1, n) then [m - 1] else [])
  }

  function RowPlaces(g: seq<int>, i: int, n: int): seq<int>
    requires |g| == 81 && 0 <= i < 9
  {
    RowPlacesBelow(g, i, n, 9)
  }

  lemma {:induction false} RowPlacesBelowSpec(g: seq<int>, i: int, n: int, m: int)
    requires |g| == 81 && 0 <= i < 9 && 0 <= m <= 9
    ensures |RowPlacesBelow(g, i, n, m)| <= m
    ensures forall j ::
      j in RowPlacesBelow(g, i, n, m) <==> 0 <= j < m && At(g, i, j) == 0 && Free(g, i, j, n)
    decreases m
  {
    if m > 0 {
      RowPlacesBelowSpec(g, i, n, m - 1);
    }
  }

  /** Row i has exactly one empty cell admitting digit n. */
  predicate HiddenSingleAt(g: seq<int>, i: int, n: int)
    requires |g| == 81 && 0 <= i < 9
  {
    |RowPlaces(g, i, n)| == 1
  }

  /** Pair (i, n) of a hidden-singles pass: a hidden single gets its digit. */
  function HiddenStep(g: seq<int>, i: int, n: int): (h: seq<int>)
    requires |g| == 81 && 0 <= i < 9 && 1 <= n <= 9
    ensures |h| == 81
  {
    var ps := RowPlaces(g, i, n);
    if |ps| == 1 then
      RowPlacesBelowSpec(g, i, n, 9);
      assert ps[0] in ps;
      g[i * 9 + ps[0] := n]
    else g
  }

  /** The pass from pair (i, n) on, rows outer and digits inner as in lines
      60-61; candidates are recomputed after every fill. */
  function HiddenFrom(g: seq<int>, i: int, n: int): (h: seq<int>)
    requires |g| == 81 && 0 <= i <= 9 && 1 <= n <= 10
    ensures |h| == 81
    decreases 9 - i, 10 - n
  {
    if i == 9 then g
    else if n == 10 then HiddenFrom(g, i + 1, 1)
    else HiddenFrom(HiddenStep(g, i, n), i, n + 1)
  }

  /** A hidden-singles fill writes a digit 1..9 into an empty cell where it
      is Free, so consistency is kept. */
  lemma HiddenStepSpec(g: seq<int>, i: int, n: int)
    requires |g| == 81 && 0 <= i < 9 && 1 <= n <= 9
    ensures Fills(g, HiddenStep(g, i, n))
    ensures HiddenStep(g, i, n) != g <==> HiddenSingleAt(g, i, n)
    ensures Consistent(g) ==> Consistent(HiddenStep(g, i, n))
  {
    if HiddenSingleAt(g, i, n) {
      var j := HiddenCell(g, i, n);
      IndexParts(i, j);
      assert HiddenStep(g, i, n)[i * 9 + j] != g[i * 9 + j];
      if Consistent(g) {
        FillKeepsConsistent(g, i, j, n);
      }
    }
  }

  /** The column a hidden single of digit n in row i fills. */
  lemma HiddenCell(g: seq<int>, i: int, n: int) returns (j: int)
    requires |g| == 81 && 0 <= i < 9 && 1 <= n <= 9 && HiddenSingleAt(g, i, n)
    ensures 0 <= j < 9 && RowPlaces(g, i, n) == [j]
    ensures At(g, i, j) == 0 && Free(g, i, j, n)
    ensures HiddenStep(g, i, n) == g[i * 9 + j := n]
  {
    var ps := RowPlaces(g, i, n);
    RowPlacesBelowSpec(g, i, n, 9);
    j := ps[0];
    assert j in ps;
  }

  lemma {:induction false} HiddenFromSpec(g: seq<int>, i: int, n: int)
    requires |g| == 81 && 0 <= i <= 9 && 1 <= n <= 10
    ensures Fills(g, HiddenFrom(g, i, n))
    ensures Consistent(g) ==> Consistent(HiddenFrom(g, i, n))
    ensures HiddenFrom(g, i, n) == g <==> NoHiddenFrom(g, i, n)
    decreases 9 - i, 10 - n
  {
    HiddenFromFills(g, i, n);
    HiddenFromFixed(g, i, n);
  }

  lemma {:induction false} HiddenFromFills(g: seq<int>, i: int, n: int)
    requires |g| == 81 && 0 <= i <= 9 && 1 <= n <= 10
    ensures Fills(g, HiddenFrom(g, i, n))
    ensures Consistent(g) ==> Consistent(HiddenFrom(g, i, n))
    decreases 9 - i, 10 - n, 1
  {
    if i == 9 {
    } else if n == 10 {
      HiddenFromFills(g, i + 1, 1);
    } else {
      HiddenFromFillsStep(g, i, n);
    }
  }

  lemma {:induction false} HiddenFromFillsStep(g: seq<int>, i: int, n: int)
    requires |g| == 81 && 0 <= i < 9 && 1 <= n <= 9
    ensures Fills(g, HiddenFrom(g, i, n))
    ensures Consistent(g) ==> Consistent(HiddenFrom(g, i, n))
    decreases 9 - i, 10 - n, 0
  {
    var h := HiddenStep(g, i, n);
    HiddenStepSpec(g, i, n);
    HiddenFromFills(h, i, n + 1);
    FillsTrans(g, h, HiddenFrom(h, i, n + 1));
  }

  /** No (row, digit) pair at or after (i, n) in loop order is a hidden
      single. */
  predicate NoHiddenFrom(g: seq<int>, i: int, n: int)
    requires |g| == 81
  {
    forall r, d | 0 <= r < 9 && 1 <= d <= 9 && (i < r || (i == r && n <= d)) ::
      !HiddenSingleAt(g, r, d)
  }

  lemma NoHiddenFromNext(g: seq<int>, i: int, n: int)
    requires |g| == 81 && 0 <= i < 9 && 1 <= n <= 10
    ensures n == 10 ==> (NoHiddenFrom(g, i, n) <==> NoHiddenFrom(g, i + 1, 1))
    ensures n < 10 ==> (NoHiddenFrom(g, i, n)
      <==> !HiddenSingleAt(g, i, n) && NoHiddenFrom(g, i, n + 1))
  {
  }

  lemma {:induction false} HiddenFromFixed(g: seq<int>, i: int, n: int)
    requires |g| == 81 && 0 <= i <= 9 && 1 <= n <= 10
    ensures HiddenFrom(g, i, n) == g <==> NoHiddenFrom(g, i, n)
    decreases 9 - i, 10 - n, 1
  {
    if i == 9 {
    } else if n == 10 {
      NoHiddenFromNext(g, i, n);
      HiddenFromFixed(g, i + 1, 1);
    } else {
      HiddenFromFixedStep(g, i, n);
    }
  }

  /** The step case of HiddenFromFixed: pair (i, n) itself is examined. */
  lemma {:induction false} HiddenFromFixedStep(g: seq<int>, i: int, n: int)
    requires |g| == 81 && 0 <= i < 9 && 1 <= n <= 9
    ensures HiddenFrom(g, i, n) == g <==> NoHiddenFrom(g, i, n)
    decreases 9 - i, 10 - n, 0
  {
    NoHiddenFromNext(g, i, n);
    if HiddenSingleAt(g, i, n) {
      HiddenFromChanges(g, i, n);
    } else {
      assert HiddenStep(g, i, n) == g;
      HiddenFromFixed(g, i, n + 1);
    }
  }

  /** A pass that meets a hidden single at its first pair changes the grid. */
  lemma HiddenFromChanges(g: seq<int>, i: int, n: int)
    requires |g| == 81 && 0 <= i < 9 && 1 <= n <= 9 && HiddenSingleAt(g, i, n)
    ensures HiddenFrom(g, i, n) != g
  {
    var h := HiddenStep(g, i, n);
    var j := HiddenCell(g, i, n);
    HiddenFromFills(h, i, n + 1);
    var k := i * 9 + j;
    assert g[k] == 0 && h[k] != 0;
    assert HiddenFrom(g, i, n)[k] != g[k];
  }

  /** One pair of an in-place pass, as NakedAdvance. */
  lemma HiddenAdvance(g: seq<int>, i: int, n: int)
    requires |g| == 81 && 0 <= i < 9 && 1 <= n <= 9
    ensures ZeroCount(HiddenStep(g, i, n))
      + (if HiddenSingleAt(g, i, n) then 1 else 0) == ZeroCount(g)
  {
    if HiddenSingleAt(g, i, n) {
      var j := HiddenCell(g, i, n);
      ZeroCountFill(g, i * 9 + j, n);
    }
  }

  /** Row i of a hidden-singles pass up to (not including) digit n. */
  function HiddenRowPrefix(g: seq<int>, i: int, n: int): (h: seq<int>)
    requires |g| == 81 && 0 <= i < 9 && 1 <= n <= 10
    ensures |h| == 81
    decreases n
  {
    if n == 1 then g else HiddenStep(HiddenRowPrefix(g, i, n - 1), i, n - 1)
  }

  lemma {:induction false} HiddenRowPrefixFrom(g: seq<int>, i: int, n: int)
    requires |g| == 81 && 0 <= i < 9 && 1 <= n <= 10
    ensures HiddenFrom(HiddenRowPrefix(g, i, n), i, n) == HiddenFrom(g, i, 1)
    decreases n
  {
    if n > 1 {
      HiddenRowPrefixFrom(g, i, n - 1);
      var q := HiddenRowPrefix(g, i, n - 1);
      assert HiddenFrom(q, i, n - 1) == HiddenFrom(HiddenStep(q, i, n - 1), i, n);
    }
  }

  /** Every digit occurs in every row of a solved grid (nine distinct values
      from 1..9). */
  lemma RowHasDigit(s: seq<int>, i: int, n: int)
    requires Solved(s) && 0 <= i < 9 && 1 <= n <= 9
    ensures exists j | 0 <= j < 9 :: At(s, i, j) == n
  {
    if forall j | 0 <= j < 9 :: At(s, i, j) != n {
      RowImageSize(s, i, 9);
      DigitsBut(n);
      RowImageWithin(s, i, 9, n);
      SubsetCard(RowImage(s, i, 9), Digits - {n});
      assert false;
    }
  }

  const Digits: set<int> := {1, 2, 3, 4, 5, 6, 7, 8, 9}

  lemma DigitsBut(n: int)
    requires 1 <= n <= 9
    ensures |Digits - {n}| == 8
  {
    assert |Digits| == 9;
    assert Digits == (Digits - {n}) + {n};
  }

  /** The values of the first m cells of row i. */
  function RowImage(s: seq<int>, i: int, m: int): set<int>
    requires |s| == 81 && 0 <= i < 9 && 0 <= m <= 9
  {
    if m == 0 then {} else RowImage(s, i, m - 1) + {At(s, i, m - 1)}
  }

  lemma {:induction false} RowImageWithin(s: seq<int>, i: int, m: int, n: int)
    requires Solved(s) && 0 <= i < 9 && 0 <= m <= 9
    requires forall j | 0 <= j < 9 :: At(s, i, j) != n
    ensures RowImage(s, i, m) <= Digits - {n}
    decreases m
  {
    if m > 0 {
      RowImageWithin(s, i, m - 1, n);
      assert 1 <= s[i * 9 + m - 1];
      assert At(s, i, m - 1) in Digits - {n};
    }
  }

  lemma {:induction false} RowImageExcludes(s: seq<int>, i: int, m: int, x: int)
    requires |s| == 81 && 0 <= i < 9 && 0 <= m <= 9
    requires forall j | 0 <= j < m :: At(s, i, j) != x
    ensures x !in RowImage(s, i, m)
    decreases m
  {
    if m > 0 {
      RowImageExcludes(s, i, m - 1, x);
    }
  }

  lemma {:induction false} RowImageSize(s: seq<int>, i: int, m: int)
    requires Solved(s) && 0 <= i < 9 && 0 <= m <= 9
    ensures |RowImage(s, i, m)| == m
    decreases m
  {
    if m > 0 {
      RowImageSize(s, i, m - 1);
      forall j | 0 <= j < m - 1 ensures At(s, i, j) != At(s, i, m - 1)
      {
        assert 1 <= s[i * 9 + j];
        assert Peers(i, j, i, m - 1);
      }
      RowImageExcludes(s, i, m - 1, At(s, i, m - 1));
    }
  }

  lemma {:induction false} SubsetCard(a: set<int>, b: set<int>)
    requires a <= b
    ensures |a| <= |b|
    decreases |b|
  {
    if forall y :: y !in a {
      assert a == {};
    } else {
      var x :| x in a;
      SubsetCard(a - {x}, b - {x});
    }
  }

  /** A hidden-singles fill never contradicts a solution: the solution puts
      n somewhere in row i, necessarily in an empty cell where n is Free,
      and there is only one such cell. */
  lemma HiddenStepKeepsSolution(g: seq<int>, i: int, n: int, s: seq<int>)
    requires |g| == 81 && 0 <= i < 9 && 1 <= n <= 9 && Solved(s) && Extends(g, s)
    ensures Extends(HiddenStep(g, i, n), s)
  {
    var ps := RowPlaces(g, i, n);
    RowPlacesBelowSpec(g, i, n, 9);
    if |ps| == 1 {
      assert ps[0] in ps;
      var j0 := ps[0];
      RowHasDigit(s, i, n);
      var j :| 0 <= j < 9 && At(s, i, j) == n;
      if At(g, i, j) != 0 {
        assert At(g, i, j) == n;
        assert Peers(i, j, i, j0);
        assert false;
      }
      SolutionDigitFree(g, s, i, j);
      assert j in ps;
      assert ps == [j0];
      IndexParts(i, j);
    }
  }

  lemma {:induction false} HiddenFromKeepsSolution(g: seq<int>, i: int, n: int, s: seq<int>)
    requires |g| == 81 && 0 <= i <= 9 && 1 <= n <= 10 && Solved(s) && Extends(g, s)
    ensures Extends(HiddenFrom(g, i, n), s)
    decreases 9 - i, 10 - n
  {
    if i == 9 {
    } else if n == 10 {
      HiddenFromKeepsSolution(g, i + 1, 1, s);
    } else {
      HiddenStepKeepsSolution(g, i, n, s);
      HiddenFromKeepsSolution(HiddenStep(g, i, n), i, n + 1, s);
    }
  }

  // ---------------------------------------------------------------------
  // The fixed point (lines 79-82)

  /** `solve_with_logic`: repeat a naked-singles pass, and a hidden-singles
      pass only when that changed nothing, until neither changes the grid. */
  function Logic(g: seq<int>): (h: seq<int>)
    requires |g| == 81
    ensures |h| == 81
    decreases ZeroCount(g)
  {
    var a := NakedFrom(g, 0, 0);
    if a != g then
      NakedFromSpec(g, 0, 0);
      ZeroCountExtends(g, a);
      Logic(a)
    else
      var b := HiddenFrom(g, 0, 1);
      if b != g then
        HiddenFromSpec(g, 0, 1);
        ZeroCountExtends(g, b);
        Logic(b)
      else g
  }

  /** Grid on which neither pass finds anything. */
  predicate Stable(g: seq<int>)
    requires |g| == 81
  {
    && (forall i, j | 0 <= i < 9 && 0 <= j < 9 :: !NakedSingleAt(g, i, j))
    && (forall i, n | 0 <= i < 9 && 1 <= n <= 9 :: !HiddenSingleAt(g, i, n))
  }

  /** The fixed point only fills empty cells with digits, keeps consistency,
      leaves no naked or hidden single, and is reached again at once: running
      propagation on its result changes nothing. */
  lemma LogicSpec(g: seq<int>)
    requires |g| == 81
    ensures Fills(g, Logic(g))
    ensures Consistent(g) ==> Consistent(Logic(g))
    ensures Stable(Logic(g))
    ensures Logic(Logic(g)) == Logic(g)
  {
    LogicFills(g);
    LogicStable(g);
    StableIsFixed(Logic(g));
  }

  /** Propagation only fills empty cells with digits and keeps consistency. */
  lemma {:induction false} LogicFills(g: seq<int>)
    requires |g| == 81
    ensures Fills(g, Logic(g))
    ensures Consistent(g) ==> Consistent(Logic(g))
    decreases ZeroCount(g)
  {
    var a := NakedFrom(g, 0, 0);
    NakedFromSpec(g, 0, 0);
    if a != g {
      ZeroCountExtends(g, a);
      LogicFills(a);
      FillsTrans(g, a, Logic(a));
    } else {
      var b := HiddenFrom(g, 0, 1);
      HiddenFromSpec(g, 0, 1);
      if b != g {
        ZeroCountExtends(g, b);
        LogicFills(b);
        FillsTrans(g, b, Logic(b));
      }
    }
  }

  /** Propagation stops only where neither pass finds anything. */
  lemma {:induction false} LogicStable(g: seq<int>)
    requires |g| == 81
    ensures Stable(Logic(g))
    decreases ZeroCount(g)
  {
    var a := NakedFrom(g, 0, 0);
    NakedFromSpec(g, 0, 0);
    if a != g {
      ZeroCountExtends(g, a);
      LogicStable(a);
    } else {
      var b := HiddenFrom(g, 0, 1);
      HiddenFromSpec(g, 0, 1);
      if b != g {
        ZeroCountExtends(g, b);
        LogicStable(b);
      }
    }
  }

  /** On a stable grid propagation is the identity. */
  lemma StableIsFixed(g: seq<int>)
    requires |g| == 81 && Stable(g)
    ensures Logic(g) == g
  {
    NakedFromSpec(g, 0, 0);
    HiddenFromSpec(g, 0, 1);
  }

  /** Propagation never loses a solution: every solution that agrees with g
      on its non-zero cells agrees with Logic(g) too. */
  lemma {:induction false} LogicKeepsSolution(g: seq<int>, s: seq<int>)
    requires |g| == 81 && Solved(s) && Extends(g, s)
    ensures Extends(Logic(g), s)
    decreases ZeroCount(g)
  {
    var a := NakedFrom(g, 0, 0);
    NakedFromSpec(g, 0, 0);
    NakedFromKeepsSolution(g, 0, 0, s);
    if a != g {
      ZeroCountExtends(g, a);
      LogicKeepsSolution(a, s);
    } else {
      var b := HiddenFrom(g, 0, 1);
      HiddenFromSpec(g, 0, 1);
      HiddenFromKeepsSolution(g, 0, 1, s);
      if b != g {
        ZeroCountExtends(g, b);
        LogicKeepsSolution(b, s);
      }
    }
  }
}
