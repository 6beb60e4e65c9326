/** crook_mpi_solver_1.c: the propagate-then-backtrack solver over the two
    globals `grid` and `candidates`, the rank-0..size-1 split of the first
    guesses, and the string decoder. */
module CrookSolver {
  import opened Board
  import opened Propagation

  /** `is_valid` (lines 12-24), with its loops, on any 9×9 array: the row
      and column scan, then the 3×3 box at ((row / 3) * 3, (col / 3) * 3). */
  method IsValid(g: array<int>, row: int, col: int, num: int) returns (ok: bool)
    requires g.Length == 81 && 0 <= row < 9 && 0 <= col < 9
    ensures ok == Free(g[..], row, col, num)
  {
    ghost var s := g[..];
    var i := 0;
    while i < 9
      invariant 0 <= i <= 9
      invariant forall x | 0 <= x < i :: At(s, row, x) != num && At(s, x, col) != num
    {
      if g[row * 9 + i] == num || g[i * 9 + col] == num {
        assert Peers(row, i, row, col) && Peers(i, col, row, col);
        assert At(s, row, i) == num || At(s, i, col) == num;
        return false;
      }
      i := i + 1;
    }
    var boxRow := (row / 3) * 3;
    var boxCol := (col / 3) * 3;
    i := 0;
    while i < 3
      invariant 0 <= i <= 3
      invariant forall x, y | boxRow <= x < boxRow + i && boxCol <= y < boxCol + 3 ::
        At(s, x, y) != num
    {
      var r := boxRow + i;
      var j := 0;
      while j < 3
        invariant 0 <= j <= 3
        invariant forall x, y | boxRow <= x < boxRow + i && boxCol <= y < boxCol + 3 ::
          At(s, x, y) != num
        invariant forall y | boxCol <= y < boxCol + j :: At(s, r, y) != num
      {
        if g[r * 9 + boxCol + j] == num {
          assert Peers(r, boxCol + j, row, col);
          assert At(s, r, boxCol + j) == num;
          return false;
        }
        j := j + 1;
      }
      i := i + 1;
    }
    return true;
  }

  /** The guesses rank `rank` of `size` tries (lines 176-190): the t-th valid
      digit, t counted from 0 over the valid digits only, belongs to rank
      t % size. */
  function RankShare(ds: seq<int>, rank: int, size: int): seq<int>
    requires size >= 1
  {
    if ds == [] then []
    else
      var last := |ds| - 1;
      RankShare(ds[..last], rank, size) + (if last % size == rank then [ds[last]] else [])
  }

  lemma {:induction false} RankShareMembers(ds: seq<int>, rank: int, size: int)
    requires size >= 1
    ensures forall x :: x in RankShare(ds, rank, size) <==>
      exists t | 0 <= t < |ds| :: ds[t] == x && t % size == rank
    decreases |ds|
  {
    if ds != [] {
      var ds' := ds[..|ds| - 1];
      RankShareMembers(ds', rank, size);
      forall x ensures x in RankShare(ds, rank, size) <==>
        exists t | 0 <= t < |ds| :: ds[t] == x && t % size == rank
      {
        if x in RankShare(ds', rank, size) {
          var t :| 0 <= t < |ds'| && ds'[t] == x && t % size == rank;
          assert ds[t] == x;
        }
        if t :| 0 <= t < |ds| && ds[t] == x && t % size == rank {
          if t < |ds'| {
            assert ds'[t] == x;
          }
        }
      }
    }
  }

  /** The split partitions the valid guesses: over ranks 0..size-1 each
      guess is tried by exactly one rank, the one its index names. */
  lemma RankSharePartition(ds: seq<int>, size: int)
    requires size >= 1
    requires forall a, b | 0 <= a < b < |ds| :: ds[a] < ds[b]
    ensures forall t, r | 0 <= t < |ds| && 0 <= r < size ::
      ds[t] in RankShare(ds, r, size) <==> r == t % size
  {
    forall t, r | 0 <= t < |ds| && 0 <= r < size
      ensures ds[t] in RankShare(ds, r, size) <==> r == t % size
    {
      RankShareAt(ds, t, r, size);
    }
  }

  lemma RankShareAt(ds: seq<int>, t: int, r: int, size: int)
    requires size >= 1 && 0 <= t < |ds|
    requires forall a, b | 0 <= a < b < |ds| :: ds[a] < ds[b]
    ensures ds[t] in RankShare(ds, r, size) <==> r == t % size
  {
    RankShareMembers(ds, r, size);
    if r == t % size {
      assert exists u | 0 <= u < |ds| :: ds[u] == ds[t] && u % size == r;
    }
    if ds[t] in RankShare(ds, r, size) {
      var u :| 0 <= u < |ds| && ds[u] == ds[t] && u % size == r;
      if u < t {
        assert ds[u] < ds[t];
      } else if t < u {
        assert ds[t] < ds[u];
      }
    }
  }

  /** The guesses tried before the loop has seen all digits are a prefix of
      the rank's full share. */
  lemma {:induction false} RankSharePrefix(ds: seq<int>, m: int, rank: int, size: int)
    requires size >= 1 && 0 <= m <= |ds|
    ensures var a, b := RankShare(ds[..m], rank, size), RankShare(ds, rank, size);
      |a| <= |b| && a == b[..|a|]
    decreases |ds| - m
  {
    if m < |ds| {
      var ds' := ds[..|ds| - 1];
      RankSharePrefix(ds', m, rank, size);
      assert ds'[..m] == ds[..m];
    } else {
      assert ds[..m] == ds;
    }
  }

  /** One digit of the guess loop: the valid digits below n + 1 and this
      rank's share of them grow by n exactly when n is valid, the share only
      when the count so far names this rank. */
  lemma RankShareNext(g: seq<int>, row: int, col: int, n: int, rank: int, size: int)
    requires |g| == 81 && 0 <= row < 9 && 0 <= col < 9 && 1 <= n <= 9 && size >= 1
    ensures var ds := FreeDigitsBelow(g, row, col, n);
      && FreeDigitsBelow(g, row, col, n + 1) == (if Free(g, row, col, n) then ds + [n] else ds)
      && RankShare(FreeDigitsBelow(g, row, col, n + 1), rank, size) ==
           RankShare(ds, rank, size) + (if Free(g, row, col, n)
             && |ds| % size == rank then [n] else [])
  {
    var ds := FreeDigitsBelow(g, row, col, n);
    if Free(g, row, col, n) {
      assert (ds + [n])[..|ds|] == ds;
    }
  }

  /** Where the guess loop stops, the share tried so far is a prefix of the
      rank's share of all valid digits, and all of it once n has passed 9. */
  lemma RankShareSoFar(g: seq<int>, row: int, col: int, n: int, rank: int, size: int)
    requires |g| == 81 && 0 <= row < 9 && 0 <= col < 9 && 1 <= n <= 10 && size >= 1
    ensures var a, b := RankShare(FreeDigitsBelow(g, row, col, n), rank, size),
      RankShare(FreeDigits(g, row, col), rank, size);
      && |a| <= |b| && a == b[..|a|]
      && (n == 10 ==> a == b)
  {
    var ds := FreeDigits(g, row, col);
    FreeDigitsBelowPrefix(g, row, col, n, 10);
    var below := FreeDigitsBelow(g, row, col, n);
    assert below == ds[..|below|];
    RankSharePrefix(ds, |below|, rank, size);
  }

  /** A character's digit value as `puzzle[i] - '0'` computes it. */
  function DigitValue(ch: char): int
  {
    ch as int - '0' as int
  }

  /** The grid `load_puzzle_string` builds from the first 81 characters. */
  function Decode(puzzle: seq<char>): (g: seq<int>)
    requires |puzzle| >= 81
  {
    seq(81, i requires 0 <= i < 81 => DigitValue(puzzle[i]))
  }

  /** The inverse direction: a grid of values 0..9 written as digits. */
  function Encode(g: seq<int>): (s: seq<char>)
    requires |g| == 81 && forall k | 0 <= k < 81 :: 0 <= g[k] <= 9
  {
    seq(81, i requires 0 <= i < 81 => (g[i] + '0' as int) as char)
  }

  /** Decoding an encoded grid gives the grid back. */
  lemma DecodeEncode(g: seq<int>)
    requires |g| == 81 && forall k | 0 <= k < 81 :: 0 <= g[k] <= 9
    ensures Decode(Encode(g)) == g
  {
  }

  /** Encoding a decoded string of 81 digit characters gives the string
      back, and its decoded cells are 0..9. */
  lemma EncodeDecode(s: seq<char>)
    requires |s| == 81 && forall i | 0 <= i < 81 :: '0' <= s[i] <= '9'
    ensures forall k | 0 <= k < 81 :: 0 <= Decode(s)[k] <= 9
    ensures Encode(Decode(s)) == s
  {
  }

  /** `load_puzzle_string` (lines 112-116): character i of the string is
      written to cell (i / 9, i % 9). */
  method LoadPuzzleString(puzzle: seq<char>, g: array<int>)
    requires |puzzle| >= 81 && g.Length == 81
    modifies g
    ensures g[..] == Decode(puzzle)
  {
    var i := 0;
    while i < 81
      invariant 0 <= i <= 81
      invariant forall k | 0 <= k < i :: g[k] == DigitValue(puzzle[k])
    {
      g[(i / 9) * 9 + i % 9] := DigitValue(puzzle[i]);
      i := i + 1;
    }
  }

  /** The two globals of the program. */
  class Solver {
    /** `grid`, row-major. */
    const grid: array<int>
    /** `candidates[9][9][10]`: entry [i, j, n] for the digits n = 1..9;
        entry 0 is never written. */
    const candidates: array3<int>

    predicate Valid()
      reads this
    {
      && grid.Length == 81
      && candidates.Length0 == 9 && candidates.Length1 == 9 && candidates.Length2 == 10
    }

    /** Both globals start zeroed, as static C arrays do. */
    constructor ()
      ensures Valid() && fresh(grid) && fresh(candidates)
      ensures forall k | 0 <= k < 81 :: grid[k] == 0
      ensures forall i, j, n | 0 <= i < 9 && 0 <= j < 9 && 0 <= n < 10 :: candidates[i, j, n] == 0
    {
      grid := new int[81](_ => 0);
      candidates := new int[9, 9, 10]((_, _, _) => 0);
    }

    /** The candidate table is what `initialize_candidates` computes for the
        current grid. */
    predicate CandidatesMatch()
      requires Valid()
      reads this, grid, candidates
    {
      forall i, j, n | 0 <= i < 9 && 0 <= j < 9 && 1 <= n <= 9 ::
        candidates[i, j, n] == CandidateBit(grid[..], i, j, n)
    }

    /** `initialize_candidates` (lines 26-34). */
    method InitializeCandidates()
      requires Valid()
      modifies candidates
      ensures CandidatesMatch()
    {
      var i := 0;
      while i < 9
        invariant 0 <= i <= 9
        invariant forall i', j, n | 0 <= i' < i && 0 <= j < 9 && 1 <= n <= 9 ::
          candidates[i', j, n] == CandidateBit(grid[..], i', j, n)
      {
        var j := 0;
        while j < 9
          invariant 0 <= j <= 9
          invariant forall i', j', n | 0 <= i' < i && 0 <= j' < 9 && 1 <= n <= 9 ::
            candidates[i', j', n] == CandidateBit(grid[..], i', j', n)
          invariant forall j', n | 0 <= j' < j && 1 <= n <= 9 ::
            candidates[i, j', n] == CandidateBit(grid[..], i, j', n)
        {
          InitializeCell(i, j);
          j := j + 1;
        }
        i := i + 1;
      }
    }

    /** The innermost loop of lines 29-31 for one cell. */
    method InitializeCell(i: int, j: int)
      requires Valid() && 0 <= i < 9 && 0 <= j < 9
      modifies candidates
      ensures forall n | 1 <= n <= 9 :: candidates[i, j, n] == CandidateBit(grid[..], i, j, n)
      ensures forall i', j', n | 0 <= i' < 9 && 0 <= j' < 9 && 0 <= n < 10
        && (i' != i || j' != j || n == 0) ::
        candidates[i', j', n] == old(candidates[i', j', n])
    {
      var n := 1;
      while n <= 9
        invariant 1 <= n <= 10
        invariant forall n' | 1 <= n' < n ::
          candidates[i, j, n'] == CandidateBit(grid[..], i, j, n')
        invariant forall i', j', n' | 0 <= i' < 9 && 0 <= j' < 9 && 0 <= n' < 10
          && (i' != i || j' != j || n' == 0) ::
          candidates[i', j', n'] == old(candidates[i', j', n'])
      {
        var valid := false;
        if grid[i * 9 + j] == 0 {
          valid := IsValid(grid, i, j, n);
        }
        candidates[i, j, n] := if valid then 1 else 0;
        n := n + 1;
      }
    }

    /** The counting loop of lines 41-47 on an empty cell: how many digits
        the table admits, and the last of them. */
    method CountCandidates(i: int, j: int) returns (count: int, lastNum: int)
      requires Valid() && CandidatesMatch() && 0 <= i < 9 && 0 <= j < 9 && grid[i * 9 + j] == 0
      ensures count == |FreeDigits(grid[..], i, j)|
      ensures count == 1 ==> lastNum == FreeDigits(grid[..], i, j)[0]
    {
      count, lastNum := 0, 0;
      var n := 1;
      while n <= 9
        invariant 1 <= n <= 10
        invariant count == |FreeDigitsBelow(grid[..], i, j, n)|
        invariant count > 0 ==> lastNum == FreeDigitsBelow(grid[..], i, j, n)[count - 1]
      {
        if candidates[i, j, n] != 0 {
          count := count + 1;
          lastNum := n;
        }
        n := n + 1;
      }
    }

    /** Cell (i, j) of `apply_naked_singles` (lines 40-52). */
    method NakedCell(i: int, j: int) returns (filled: bool)
      requires Valid() && CandidatesMatch() && 0 <= i < 9 && 0 <= j < 9
      modifies grid, candidates
      ensures CandidatesMatch()
      ensures grid[..] == NakedStep(old(grid[..]), i, j)
      ensures filled <==> NakedSingleAt(old(grid[..]), i, j)
      ensures ZeroCount(grid[..]) + (if filled then 1 else 0) == ZeroCount(old(grid[..]))
    {
      NakedAdvance(grid[..], i, j);
      IndexParts(i, j);
      if grid[i * 9 + j] != 0 {
        return false;
      }
      var count, lastNum := CountCandidates(i, j);
      if count == 1 {
        grid[i * 9 + j] := lastNum;
        InitializeCandidates();
        return true;
      }
      return false;
    }

    /** `apply_naked_singles` (lines 36-56): one naked-singles pass; the
        result says whether the grid changed. */
    method ApplyNakedSingles() returns (changed: bool)
      requires Valid() && CandidatesMatch()
      modifies grid, candidates
      ensures CandidatesMatch()
      ensures grid[..] == NakedFrom(old(grid[..]), 0, 0)
      ensures changed <==> grid[..] != old(grid[..])
    {
      ghost var g0 := grid[..];
      changed := false;
      var i := 0;
      while i < 9
        invariant 0 <= i <= 9 && CandidatesMatch()
        invariant NakedFrom(grid[..], i, 0) == NakedFrom(g0, 0, 0)
        invariant ZeroCount(grid[..]) <= ZeroCount(g0)
        invariant changed <==> ZeroCount(grid[..]) < ZeroCount(g0)
      {
        ghost var before := grid[..];
        changed := NakedRow(i, ZeroCount(g0), changed);
        NakedRowPrefixFrom(before, i, 9);
        i := i + 1;
      }
      NakedFromFills(g0, 0, 0);
      ZeroCountExtends(g0, grid[..]);
    }

    /** Row i of the naked-singles pass, the j loop of lines 39-53:
        `changed` becomes true once a cell is filled, measured against the
        0 cells z0 the pass started with. */
    method NakedRow(i: int, ghost z0: int, changedBefore: bool) returns (changed: bool)
      requires Valid() && CandidatesMatch() && 0 <= i < 9
      requires ZeroCount(grid[..]) <= z0 && (changedBefore <==> ZeroCount(grid[..]) < z0)
      modifies grid, candidates
      ensures CandidatesMatch()
      ensures grid[..] == NakedRowPrefix(old(grid[..]), i, 9)
      ensures ZeroCount(grid[..]) <= z0 && (changed <==> ZeroCount(grid[..]) < z0)
    {
      ghost var start := grid[..];
      changed := changedBefore;
      var j := 0;
      while j < 9
        invariant 0 <= j <= 9 && CandidatesMatch()
        invariant grid[..] == NakedRowPrefix(start, i, j)
        invariant ZeroCount(grid[..]) <= z0 && (changed <==> ZeroCount(grid[..]) < z0)
      {
        var filled := NakedCell(i, j);
        if filled {
          changed := true;
        }
        j := j + 1;
      }
    }

    /** The counting loop of lines 62-68: the empty cells of row i whose
        table entry admits n, and the last of them. */
    method CountPlaces(i: int, n: int) returns (count: int, pos: int)
      requires Valid() && CandidatesMatch() && 0 <= i < 9 && 1 <= n <= 9
      ensures count == |RowPlaces(grid[..], i, n)|
      ensures count == 1 ==> 0 <= pos < 9 && pos == RowPlaces(grid[..], i, n)[0]
    {
      count, pos := 0, -1;
      var j := 0;
      while j < 9
        invariant 0 <= j <= 9
        invariant count == |RowPlacesBelow(grid[..], i, n, j)|
        invariant count > 0 ==> pos == RowPlacesBelow(grid[..], i, n, j)[count - 1]
      {
        if grid[i * 9 + j] == 0 && candidates[i, j, n] != 0 {
          count := count + 1;
          pos := j;
        }
        j := j + 1;
      }
      if count == 1 {
        RowPlacesBelowSpec(grid[..], i, n, 9);
        assert pos in RowPlaces(grid[..], i, n);
      }
    }

    /** Row i, digit n of `apply_hidden_singles` (lines 62-73). */
    method HiddenPair(i: int, n: int) returns (filled: bool)
      requires Valid() && CandidatesMatch() && 0 <= i < 9 && 1 <= n <= 9
      modifies grid, candidates
      ensures CandidatesMatch()
      ensures grid[..] == HiddenStep(old(grid[..]), i, n)
      ensures filled <==> HiddenSingleAt(old(grid[..]), i, n)
      ensures ZeroCount(grid[..]) + (if filled then 1 else 0) == ZeroCount(old(grid[..]))
    {
      HiddenAdvance(grid[..], i, n);
      var count, pos := CountPlaces(i, n);
      if count == 1 {
        grid[i * 9 + pos] := n;
        InitializeCandidates();
        return true;
      }
      return false;
    }

    /** `apply_hidden_singles` (lines 58-77): one row-wise hidden-singles
        pass; the result says whether the grid changed. */
    method ApplyHiddenSingles() returns (changed: bool)
      requires Valid() && CandidatesMatch()
      modifies grid, candidates
      ensures CandidatesMatch()
      ensures grid[..] == HiddenFrom(old(grid[..]), 0, 1)
      ensures changed <==> grid[..] != old(grid[..])
    {
      ghost var g0 := grid[..];
      changed := false;
      var i := 0;
      while i < 9
        invariant 0 <= i <= 9 && CandidatesMatch()
        invariant HiddenFrom(grid[..], i, 1) == HiddenFrom(g0, 0, 1)
        invariant ZeroCount(grid[..]) <= ZeroCount(g0)
        invariant changed <==> ZeroCount(grid[..]) < ZeroCount(g0)
      {
        ghost var before := grid[..];
        changed := HiddenRow(i, ZeroCount(g0), changed);
        HiddenRowPrefixFrom(before, i, 10);
        i := i + 1;
      }
      HiddenFromFills(g0, 0, 1);
      ZeroCountExtends(g0, grid[..]);
    }

    /** Row i of the hidden-singles pass, the n loop of lines 61-74:
        `changed` becomes true once a cell is filled, measured against the
        0 cells z0 the pass started with. */
    method HiddenRow(i: int, ghost z0: int, changedBefore: bool) returns (changed: bool)
      requires Valid() && CandidatesMatch() && 0 <= i < 9
      requires ZeroCount(grid[..]) <= z0 && (changedBefore <==> ZeroCount(grid[..]) < z0)
      modifies grid, candidates
      ensures CandidatesMatch()
      ensures grid[..] == HiddenRowPrefix(old(grid[..]), i, 10)
      ensures ZeroCount(grid[..]) <= z0 && (changed <==> ZeroCount(grid[..]) < z0)
    {
      ghost var start := grid[..];
      changed := changedBefore;
      var n := 1;
      while n <= 9
        invariant 1 <= n <= 10 && CandidatesMatch()
        invariant grid[..] == HiddenRowPrefix(start, i, n)
        invariant ZeroCount(grid[..]) <= z0 && (changed <==> ZeroCount(grid[..]) < z0)
      {
        var filled := HiddenPair(i, n);
        if filled {
          changed := true;
        }
        n := n + 1;
      }
    }

    /** `solve_with_logic` (lines 79-82): fresh candidates, then naked
        singles, and hidden singles only when naked singles changed nothing,
        until neither changes the grid. */
    method SolveWithLogic()
      requires Valid()
      modifies grid, candidates
      ensures CandidatesMatch()
      ensures grid[..] == Logic(old(grid[..]))
    {
      InitializeCandidates();
      ghost var g0 := grid[..];
      var more := true;
      while more
        invariant CandidatesMatch()
        invariant Logic(grid[..]) == Logic(g0)
        invariant !more ==> grid[..] == Logic(g0)
        decreases ZeroCount(grid[..]), more
      {
        ghost var before := grid[..];
        NakedFromSpec(before, 0, 0);
        HiddenFromSpec(before, 0, 1);
        more := ApplyNakedSingles();
        if more {
          ZeroCountExtends(before, grid[..]);
        } else {
          more := ApplyHiddenSingles();
          if more {
            ZeroCountExtends(before, grid[..]);
          }
        }
      }
    }

    /** `solve_fallback` (lines 84-102): propagate, then branch on the first
        empty cell (the scan of lines 86-88, in row-major order) with the
        digits that pass `is_valid`, clearing only that cell after a failed
        branch. Success means a complete grid; the grid
        is only ever filled, never changed at a non-zero cell, and stays
        consistent when it was. */
    method SolveFallback() returns (ok: bool)
      requires Valid()
      modifies grid, candidates
      ensures Fills(old(grid[..]), grid[..])
      ensures Consistent(old(grid[..])) ==> Consistent(grid[..])
      ensures ok ==> Complete(grid[..])
      decreases ZeroCount(grid[..]), 2
    {
      ghost var g0 := grid[..];
      SolveWithLogic();
      LogicFills(g0);
      ghost var h := grid[..];
      ZeroCountExtends(g0, h);
      var i, j := ScanFirstEmpty(grid[..]);
      if i == -1 {
        return true;
      }
      ok := Branch(i, j);
    }

    /** The digit loop of lines 89-97 at the empty cell (i, j). */
    method Branch(i: int, j: int) returns (ok: bool)
      requires Valid() && 0 <= i < 9 && 0 <= j < 9 && grid[i * 9 + j] == 0
      modifies grid, candidates
      ensures Fills(old(grid[..]), grid[..])
      ensures Consistent(old(grid[..])) ==> Consistent(grid[..])
      ensures ok ==> Complete(grid[..])
      decreases ZeroCount(grid[..]), 1
    {
      ghost var g0 := grid[..];
      var n := 1;
      while n <= 9
        invariant 1 <= n <= 10
        invariant Fills(g0, grid[..]) && grid[i * 9 + j] == 0
        invariant Consistent(g0) ==> Consistent(grid[..])
      {
        ghost var cur := grid[..];
        ZeroCountExtends(g0, cur);
        ok := BranchDigit(i, j, n);
        FillsTrans(g0, cur, grid[..]);
        if ok {
          return;
        }
        n := n + 1;
      }
      return false;
    }

    /** Lines 90-95 for digit n: if it passes `is_valid`, write it, recurse,
        and clear the cell again after a failure. */
    method BranchDigit(i: int, j: int, n: int) returns (ok: bool)
      requires Valid() && 0 <= i < 9 && 0 <= j < 9 && grid[i * 9 + j] == 0 && 1 <= n <= 9
      modifies grid, candidates
      ensures Fills(old(grid[..]), grid[..])
      ensures Consistent(old(grid[..])) ==> Consistent(grid[..])
      ensures ok ==> Complete(grid[..])
      ensures !ok ==> grid[i * 9 + j] == 0
      decreases ZeroCount(grid[..]), 0
    {
      var k := i * 9 + j;
      ghost var cur := grid[..];
      var valid := IsValid(grid, i, j, n);
      if !valid {
        return false;
      }
      ZeroCountFill(cur, k, n);
      if Consistent(cur) {
        FillKeepsConsistent(cur, i, j, n);
      }
      grid[k] := n;
      ghost var filled := grid[..];
      assert Fills(cur, filled);
      ok := SolveFallback();
      FillsTrans(cur, filled, grid[..]);
      if ok {
        return;
      }
      ghost var after := grid[..];
      if Consistent(after) {
        ClearKeepsConsistent(after, k);
      }
      grid[k] := 0;
      assert grid[..] == after[k := 0];
    }

    /** The `memcpy` of line 179: `grid` becomes a copy of `initial`. */
    method CopyFrom(initial: array<int>)
      requires Valid() && initial.Length == 81 && initial != grid
      modifies grid
      ensures grid[..] == initial[..]
    {
      forall c | 0 <= c < 81 {
        grid[c] := initial[c];
      }
    }

    /** One guess of lines 179-181: copy the initial grid into `grid`, write
        n into the empty cell and run `solve_fallback`. */
    method Guess(initial: array<int>, row: int, col: int, n: int) returns (ok: bool)
      requires Valid() && initial.Length == 81 && initial != grid
      requires 0 <= row < 9 && 0 <= col < 9 && initial[row * 9 + col] == 0
      requires 1 <= n <= 9 && Free(initial[..], row, col, n)
      modifies grid, candidates
      ensures ok ==>
        && grid[row * 9 + col] == n
        && Complete(grid[..]) && Fills(initial[..], grid[..])
        && (Consistent(initial[..]) ==> Consistent(grid[..]))
    {
      ghost var g := initial[..];
      CopyFrom(initial);
      grid[row * 9 + col] := n;
      ghost var start := grid[..];
      assert start == g[row * 9 + col := n];
      if Consistent(g) {
        FillKeepsConsistent(g, row, col, n);
      }
      assert Fills(g, start);
      ok := SolveFallback();
      FillsTrans(g, start, grid[..]);
    }

    /** The guess loop of `main` (lines 164-191) on rank `rank` of `size`:
        scan the initial grid for its first empty cell, then walk the digits
        1..9, count the valid ones, and run `solve_fallback` on a copy with
        the guess written in only for the valid digits whose index belongs
        to this rank, stopping at the first success. `tried` is what this
        rank guessed, in order. */
    method RankGuesses(initial: array<int>, rank: int, size: int)
        returns (found: bool, ghost tried: seq<int>)
      requires Valid() && initial.Length == 81 && initial != grid
      requires FirstEmpty(initial[..]).Some? && size >= 1 && 0 <= rank < size
      modifies grid, candidates
      ensures var k := FirstEmpty(initial[..]).value;
        var share := RankShare(FreeDigits(initial[..], RowOf(k), ColOf(k)), rank, size);
        && |tried| <= |share| && tried == share[..|tried|]
        && (!found ==> tried == share)
        && (found ==>
              && |tried| > 0 && grid[k] == tried[|tried| - 1]
              && Complete(grid[..]) && Fills(initial[..], grid[..])
              && (Consistent(initial[..]) ==> Consistent(grid[..])))
    {
      ghost var g := initial[..];
      var row, col := ScanFirstEmpty(initial[..]);
      ghost var k := row * 9 + col;
      IndexParts(row, col);
      var guessCount := 0;
      found := false;
      tried := [];
      var n := 1;
      while n <= 9 && !found
        invariant 1 <= n <= 10 && initial[..] == g
        invariant guessCount == |FreeDigitsBelow(g, row, col, n)|
        invariant tried == RankShare(FreeDigitsBelow(g, row, col, n), rank, size)
        invariant found ==>
          && |tried| > 0 && grid[k] == tried[|tried| - 1]
          && Complete(grid[..]) && Fills(g, grid[..])
          && (Consistent(g) ==> Consistent(grid[..]))
      {
        var valid := IsValid(initial, row, col, n);
        RankShareNext(g, row, col, n, rank, size);
        if valid {
          if guessCount % size == rank {
            tried := tried + [n];
            found := Guess(initial, row, col, n);
          }
          guessCount := guessCount + 1;
        }
        n := n + 1;
      }
      RankShareSoFar(g, row, col, n, rank, size);
      assert FirstEmpty(initial[..]).value == k && RowOf(k) == row && ColOf(k) == col;
    }
  }
}
