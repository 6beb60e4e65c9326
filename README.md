# Sudoku solvers: a verified Dafny model

This project models the sequential core of a 9×9 Sudoku solver repository. The repository contains three MPI programs, a reference solver and a utility file. All of them share the same vocabulary:

- A grid is 81 integers, row-major, with 0 for an empty cell.
- A digit may be placed when it occurs nowhere in the cell's row, column or 3×3 box.
- A solver either fills the grid completely or reports failure.

The model is split into modules:

- `Board`: the shared vocabulary, stated once.
  - `Free(g, r, c, n)` is the placement rule, stated over peers.
  - `Consistent` says no non-zero digit is repeated among peers.
  - `Complete` says no cell is 0.
  - `Extends` says that one grid keeps another's non-zero cells.
  - `ZeroCount` counts the empty cells.
  - `FirstEmpty` gives the first 0 cell in row-major order.
  - `FreeDigits` lists the digits that may be placed at a cell, ascending.
- `Backtrack`: chronological backtracking as a pure function `Search`. It branches on the first empty cell and tries 1..9 in order. It is proved sound (a result is complete, keeps the givens and is consistent when the input is) and complete (it fails only when no solution agrees with the input).
- `SimpleSolver` (crook_mpi_solver_simple.c), `BruteSolver` (brute_solver.c) and `SudokuUtils` (sudoku_utils.c):
  - the placement checks, each proved equal to `Free`;
  - the in-place backtracking solvers, each proved to compute `Search` exactly and to restore the grid when the search fails;
  - the master's bounded first dispatch and the worker's reply (crook_mpi_solver_simple.c);
  - the work partitioner `generate_initial_tasks` (sudoku_utils.c).
- `SudokuMpi` (sudoku_mpi.c):
  - The pull-based master is a state machine over `task_index`, `active_workers` and a log of sent messages. It is driven by an arbitrary sequence of received results.
  - The worker loop runs over an arbitrary inbox.
- `Propagation`: the constraint propagation of crook_mpi_solver_1.c as functions on grid values.
  - `NakedFrom` is one naked-singles pass in the program's cell order, refreshing after every fill.
  - `HiddenFrom` is one row-only hidden-singles pass in the program's row/digit order.
  - `Logic` is their fixed point, in the order `solve_with_logic` runs them.
- `CrookSolver` (crook_mpi_solver_1.c): the two globals `grid` and `candidates` are the fields of class `Solver`. Its methods keep the program's loops. Each pass is proved to compute exactly the corresponding `Propagation` function, and `solve_fallback` is proved sound. Rank-wise splitting of the first guesses is also modelled.

## Model

| member | source | states |
|---|---|---|
| Board.ScanFirstEmpty | crook_mpi_solver_1.c:164-173 | the scan returns (-1, -1) exactly when the grid has no 0 cell, and otherwise the row and column of the first 0 cell in row-major order |
| Board.FirstZeroFrom | sudoku_utils.c:77-86 | the first 0 cell at or after i: it is 0, every earlier cell from i on is non-zero, and None means there is no 0 cell from i on |
| Board.FreeDigitsBelowSpec | sudoku_utils.c:90-98 | the valid digits below n are exactly the digits 1..n-1 that pass the placement check, strictly ascending |
| Board.FillKeepsConsistent | crook_mpi_solver_simple.c:60-61 | writing a digit that passes the placement check into an empty cell of a consistent grid keeps it consistent |
| Board.ZeroCountFill | brute_solver.c:53-54 | filling an empty cell lowers the number of 0 cells by one, which is the solvers' termination measure |
| Board.ZeroCountExtends | crook_mpi_solver_1.c:81 | a grid that keeps another's non-zero cells has no more 0 cells, and strictly fewer if it differs |
| Backtrack.SearchSound | sudoku_utils.c:44-69 | a search result is complete, keeps every given, fills only digits 1..9 and is consistent when the input is |
| Backtrack.SearchComplete | sudoku_utils.c:44-69 | if any solution agrees with the grid's non-zero cells, the search succeeds |
| Backtrack.SearchOfComplete | sudoku_utils.c:57-58 | a grid with no 0 cell is its own search result |
| SimpleSolver.IsValid | crook_mpi_solver_simple.c:33-45 | true exactly when num is absent from the row, the column and the box at (row/3*3, col/3*3) |
| SimpleSolver.IsSolved | crook_mpi_solver_simple.c:47-53 | true exactly when no cell is 0 |
| SimpleSolver.Solve | crook_mpi_solver_simple.c:55-71 | succeeds exactly when the search does, leaves the search result in place on success, and leaves the grid unchanged on failure |
| SimpleSolver.MasterStart | crook_mpi_solver_simple.c:87-114 | an already complete puzzle sends nothing; otherwise the sends are the guess messages for the first empty cell |
| SimpleSolver.GuessSendsSpec | crook_mpi_solver_simple.c:107-114 | min(size-1, number of valid digits) messages, at most 9, to distinct ranks 1..size-1 in ascending order; each carries the puzzle unchanged except at the empty cell, which holds a digit 1..9 that passes `is_valid`, the digits ascending; each message is consistent when the puzzle is |
| SimpleSolver.SendGuesses | crook_mpi_solver_simple.c:107-114 | the send loop produces exactly the messages GuessSends describes: message t goes to rank t+1 with the t-th valid digit written into the empty cell, for the first min(size-1, number of valid digits) digits |
| SimpleSolver.WorkerReply | crook_mpi_solver_simple.c:129-136 | a reply is sent exactly when the tag is TAG_PUZZLE and the search succeeds, and it carries the search result |
| BruteSolver.IsSafe | brute_solver.c:19-31 | true exactly when num is absent from the row, the column and the box at (row - row%3, col - col%3) |
| BruteSolver.SolveSudoku | brute_solver.c:34-61 | succeeds exactly when the search does, leaves the search result in place on success, and leaves the board unchanged on failure |
| SudokuUtils.IsSafe | sudoku_utils.c:30-42 | true exactly when num is absent from the row, the column and the box at (row - row%3, col - col%3) |
| SudokuUtils.SolveSudoku | sudoku_utils.c:44-69 | succeeds exactly when the search does, leaves the search result in place on success, and leaves the grid unchanged on failure |
| SudokuUtils.GenerateInitialTasks | sudoku_utils.c:76-100 | the first count entries of tasks are exactly Partition of the grid, the remaining entries are untouched, and the grid is only read |
| SudokuUtils.PartitionShape | sudoku_utils.c:87-99 | no tasks when there is no 0 cell; otherwise task t holds the t-th valid digit (a digit 1..9) at the first 0 cell, so at most 9 tasks, digits strictly ascending, each task equal to the grid except at that cell, and solved == 0 |
| SudokuUtils.PartitionConsistent | sudoku_utils.c:92-95 | each task of a consistent grid is consistent, keeps the grid's givens and has one 0 cell fewer |
| SudokuUtils.PartitionCovers | sudoku_utils.c:90-98 | every solution agreeing with the grid agrees with exactly one task |
| SudokuUtils.PartitionSolvable | sudoku_utils.c:90-98 | the sequential search succeeds exactly when the search of some task succeeds |
| SudokuUtils.TryFromSucceeds | sudoku_utils.c:60-67 | a successful digit loop from n succeeded on some valid digit d >= n whose branch succeeds |
| SudokuUtils.TryFromReaches | sudoku_utils.c:60-67 | the digit loop from n reaches every valid digit d >= n, so a succeeding branch at d makes the loop succeed |
| SudokuMpi.BroadcastStop | sudoku_mpi.c:55-58 | the log grows by exactly one STOP per rank 1..size-1 other than the source, in rank order |
| SudokuMpi.RunMaster | sudoku_mpi.c:35-69 | the loop's final state is the step function applied to the results it consumed; it consumed each of them while running, and stopped early only because it was no longer running |
| SudokuMpi.StopOthersSpec | sudoku_mpi.c:55-58 | the broadcast holds only STOP messages, one to each rank in 1..size-1 other than the source, in strictly ascending rank order, and carries no task |
| SudokuMpi.InitialDispatchSpec | sudoku_mpi.c:40-46 | task_index == active_workers == min(size-1, task_count), rank i+1 receives task i, and with no task or a single process the receive loop is not entered |
| SudokuMpi.OnResultSpec | sudoku_mpi.c:50-68 | each step keeps the scheduler invariant; a solved result appends one STOP to every rank other than its source, stops the loop and records the solution; an unsolved one either sends tasks[task_index] and advances task_index, or stops the reporter and decrements active_workers, lowering the pending count by one |
| SudokuMpi.RunSpec | sudoku_mpi.c:46-69 | over any run, the invariant holds, every result before the last is unsolved, the master stops exactly on the first solved result, and without a solution it has consumed at most task_count results |
| SudokuMpi.AllTasksSent | sudoku_mpi.c:46 | when the loop ends without a solution and there is a worker, every task was sent exactly once, in index order, and task_count results were consumed |
| SudokuMpi.WorkerStep | sudoku_mpi.c:74-83 | TAG_STOP ends the worker with no reply; any other tag replies with the solved task |
| SudokuMpi.FirstStop | sudoku_mpi.c:75 | the index of the first TAG_STOP in the inbox, or the inbox length if there is none |
| SudokuMpi.Worker | sudoku_mpi.c:73-84 | the worker exits exactly when a TAG_STOP arrives, and replies once per message before it, with the solved task |
| SudokuMpi.WorkerResultSpec | sudoku_mpi.c:77-81 | solved is 0 or 1; solved == 1 carries a sound completion of the task; solved == 0 returns the task grid unchanged, and then no solution agrees with it |
| SudokuMpi.DistributedAgrees | sudoku_mpi.c:33-69 | some worker reports solved exactly when the sequential search of the puzzle succeeds; for a consistent puzzle, every solved report is a consistent completion of it |
| Propagation.NakedStepSpec | crook_mpi_solver_1.c:40-52 | one cell of the naked-singles pass only fills; it changes the grid exactly when the cell is empty with a single candidate, and it keeps the grid consistent |
| Propagation.NakedFromSpec | crook_mpi_solver_1.c:36-56 | the rest of a naked-singles pass only fills empty cells, keeps the grid consistent, and leaves the grid unchanged exactly when no remaining cell is a naked single |
| Propagation.NakedFromChanges | crook_mpi_solver_1.c:48-50 | a naked single ahead in the pass makes the pass change the grid |
| Propagation.NakedRowPrefixFrom | crook_mpi_solver_1.c:39-53 | the row loop's state after j cells, continued by the pass, is the pass from the row's start |
| Propagation.NakedFromKeepsSolution | crook_mpi_solver_1.c:36-56 | a solution that agrees with the grid still agrees after the pass, so no naked single is ever wrong |
| Propagation.HiddenStepSpec | crook_mpi_solver_1.c:62-73 | one (row, digit) step only fills; it changes the grid exactly when a single empty cell of the row admits the digit, and it keeps the grid consistent |
| Propagation.HiddenCell | crook_mpi_solver_1.c:62-70 | a hidden single names the one empty cell of the row where the digit passes the check, and the step writes the digit there |
| Propagation.HiddenFromSpec | crook_mpi_solver_1.c:58-77 | the rest of a row-wise hidden-singles pass only fills empty cells, keeps the grid consistent, and leaves the grid unchanged exactly when no remaining (row, digit) is a hidden single |
| Propagation.HiddenFromChanges | crook_mpi_solver_1.c:69-71 | a hidden single ahead in the pass makes the pass change the grid |
| Propagation.HiddenRowPrefixFrom | crook_mpi_solver_1.c:61-74 | the digit loop's state after n digits, continued by the pass, is the pass from the row's start |
| Propagation.RowHasDigit | crook_mpi_solver_1.c:62-70 | every digit occurs in every row of a solution |
| Propagation.HiddenFromKeepsSolution | crook_mpi_solver_1.c:58-77 | a solution that agrees with the grid still agrees after the hidden-singles pass |
| Propagation.LogicSpec | crook_mpi_solver_1.c:79-82 | the fixed point only fills empty cells, keeps the grid consistent, leaves no naked or row-wise hidden single, and is idempotent |
| Propagation.StableIsFixed | crook_mpi_solver_1.c:81 | with no single left, both passes return 0 and the loop leaves the grid as it is |
| Propagation.LogicKeepsSolution | crook_mpi_solver_1.c:79-82 | a solution that agrees with the grid still agrees after propagation |
| CrookSolver.IsValid | crook_mpi_solver_1.c:12-24 | the row/column loop and the box loop at ((row/3)*3, (col/3)*3) together return true exactly when num may be placed |
| CrookSolver.RankShareMembers | crook_mpi_solver_1.c:175-190 | a digit is in rank r's share exactly when it is the t-th valid digit for some t with t % size == r |
| CrookSolver.RankSharePartition | crook_mpi_solver_1.c:175-190 | over ranks 0..size-1, each valid guess is tried by exactly one rank, the one given by guess_count % size |
| CrookSolver.RankSharePrefix | crook_mpi_solver_1.c:176 | what a rank has tried when the loop stops early is a prefix of its full share |
| CrookSolver.DecodeEncode | crook_mpi_solver_1.c:112-116 | decoding the digit string of a grid of values 0..9 returns that grid |
| CrookSolver.EncodeDecode | crook_mpi_solver_1.c:112-116 | an 81-character string of digits decodes to cells 0..9 and encodes back to the same string |
| CrookSolver.LoadPuzzleString | crook_mpi_solver_1.c:112-116 | cell (i/9, i%9) receives puzzle[i] - '0', for i = 0..80 |
| CrookSolver.Solver.constructor | crook_mpi_solver_1.c:9-10 | both globals start zeroed |
| CrookSolver.Solver.InitializeCandidates | crook_mpi_solver_1.c:26-34 | afterwards candidates[i][j][n] is 1 exactly when grid[i][j] is 0 and n passes is_valid there, for every cell and every digit 1..9 |
| CrookSolver.Solver.InitializeCell | crook_mpi_solver_1.c:29-31 | one cell's nine entries are set as above and no other entry changes, entry 0 included |
| CrookSolver.Solver.CountCandidates | crook_mpi_solver_1.c:41-47 | count is the number of valid digits at the empty cell; when it is 1, lastNum is that digit |
| CrookSolver.Solver.NakedCell | crook_mpi_solver_1.c:40-52 | one cell step: the grid becomes NakedStep of the old grid, the candidates are refreshed, and it reports a fill exactly for a naked single, with one fewer 0 cell |
| CrookSolver.Solver.ApplyNakedSingles | crook_mpi_solver_1.c:36-56 | the grid becomes NakedFrom the old grid, with the candidate table matching it, and the result is 1 exactly when the grid changed |
| CrookSolver.Solver.NakedRow | crook_mpi_solver_1.c:39-53 | one row of the naked-singles pass leaves the grid at the row prefix of the pass, and `changed` records whether any cell was filled since the pass began |
| CrookSolver.Solver.CountPlaces | crook_mpi_solver_1.c:62-68 | count is the number of empty cells of row i where n passes the check; when it is 1, pos is that column |
| CrookSolver.Solver.HiddenPair | crook_mpi_solver_1.c:62-73 | one (row, digit) step: the grid becomes HiddenStep of the old grid, the candidates are refreshed, and it reports a fill exactly for a hidden single, with one fewer 0 cell |
| CrookSolver.Solver.ApplyHiddenSingles | crook_mpi_solver_1.c:58-77 | the grid becomes HiddenFrom the old grid, with the candidate table matching it, and the result is 1 exactly when the grid changed |
| CrookSolver.Solver.HiddenRow | crook_mpi_solver_1.c:61-74 | one row of the hidden-singles pass leaves the grid at the row prefix of the pass, and `changed` records whether any cell was filled since the pass began |
| CrookSolver.Solver.SolveWithLogic | crook_mpi_solver_1.c:79-82 | the loop terminates with the grid equal to Logic of the old grid and the candidate table matching it |
| CrookSolver.Solver.SolveFallback | crook_mpi_solver_1.c:84-102 | the grid is only filled, never changed at a non-zero cell; it stays consistent when it was; success means no cell is 0 |
| CrookSolver.Solver.Branch | crook_mpi_solver_1.c:89-97 | the digit loop at an empty cell preserves the same three facts |
| CrookSolver.Solver.BranchDigit | crook_mpi_solver_1.c:90-95 | one digit: the same three facts, and after a failure the branching cell is 0 again |
| CrookSolver.Solver.CopyFrom | crook_mpi_solver_1.c:179 | grid becomes a copy of the initial grid |
| CrookSolver.Solver.Guess | crook_mpi_solver_1.c:179-181 | a successful guess leaves a complete grid that holds the guess at the empty cell, keeps the initial givens and is consistent when the initial grid is |
| CrookSolver.Solver.RankGuesses | crook_mpi_solver_1.c:164-191 | the digits this rank tried are a prefix of its share of the valid digits at the first empty cell, in ascending order, and all of the share when nothing is found; a success holds the last guess tried, is complete, keeps the givens and is consistent when the initial grid is |

## Left out

- MPI transport (`MPI_Init`, `MPI_Comm_*`, `MPI_Send`, `MPI_Recv`, `MPI_Abort`, `MPI_Finalize`) is not modelled. Sends are appended to a message log, and the received results and worker inbox are arbitrary input sequences, because which worker reports first is a matter of concurrency.
- `MPI_Allreduce` at crook_mpi_solver_1.c:193-194 is not modelled. It is collective communication, and it only ORs the per-rank flags that `RankGuesses` returns.
- The timing code (`MPI_Wtime`, `gettimeofday`, elapsed-time arithmetic) is not modelled. It uses clocks and floating point.
- File and console I/O are not modelled: `load_puzzle_file`, `read_puzzle`, `readPuzzleFromFile`, `load_sudoku`, `print_grid`, `print_puzzle`, `printBoard`, and the `main` of brute_solver.c.
- CrookSolver.Solver.SolveFallback: completeness is not claimed. Cells filled by propagation in deeper calls are not reverted on backtrack (only line 94 clears the branching cell), so a return value of 0 does not mean the puzzle has no solution. For the same reason the grid is not claimed to be restored on failure.
- CrookSolver.Solver.RankGuesses: requires that the initial grid has an empty cell. With no empty cell, crook_mpi_solver_1.c:164-177 calls `is_valid` with row and column -1, which indexes out of bounds.
- CrookSolver.Solver.ApplyNakedSingles and CrookSolver.Solver.ApplyHiddenSingles: both require the candidate table to match the grid on entry. `solve_with_logic`, their only caller, establishes this.
- The simple solver's master after the dispatch (crook_mpi_solver_simple.c:116-127) is not modelled. Its single blocking receive never completes when no worker solves, which is liveness under message passing. The stop messages it then sends use the same rule as `SudokuMpi.StopOthers`.
- SudokuMpi.RunMaster: receiving a result is not modelled as blocking. A run that stops consuming while the master is still running stands for a master waiting forever. In sudoku_mpi.c, the worker that reports the solution is never sent TAG_STOP, and ranks above min(size-1, task_count) receive nothing unless a solution is found. Neither concerns the master's state.
- CrookSolver.DigitValue: C's `char` is modelled as a Unicode code point. The subtraction `puzzle[i] - '0'` is exact for the digit characters the program is given.
- GenerateInitialTasks requires room for 9 tasks (the caller's array holds 81). At most 9 are ever written.
