/** sudoku_mpi.c: the pull-based master and its workers. Sends are appended
    to a message log; the results the master receives are an arbitrary
    sequence, since which worker reports first is up to the scheduler. */
module SudokuMpi {
  import opened Board
  import opened Backtrack
  import opened SudokuUtils

  const TagStop := 3

  /** A message the master sends: a task (TAG_WORK) or TAG_STOP, to a rank. */
  datatype Message = Work(dest: int, task: SudokuTask) | Stop(dest: int)

  /** A TAG_RESULT message as the master receives it. */
  datatype Report = Report(source: int, task: SudokuTask)

  /** The master's scheduling state: `task_index`, `active_workers`, what it
      has sent, and the solved report it stopped on, if any. */
  datatype Master = Master(taskIndex: int, activeWorkers: int, log: seq<Message>,
    solution: Option<Report>)

  /** The master is still in its receive loop. */
  predicate Running(m: Master)
  {
    m.activeWorkers > 0 && m.solution.None?
  }

  /** Lines 40-44: tasks 0..k-1 go to ranks 1..k, k = min(size - 1, task_count). */
  function InitialDispatch(tasks: seq<SudokuTask>, size: int): Master
    requires size >= 1
  {
    var k := Min(size - 1, |tasks|);
    Master(k, k, seq(k, i requires 0 <= i < k => Work(i + 1, tasks[i])), None)
  }

  /** TAG_STOP to ranks lo..size-1 except `source`, in rank order. */
  function StopOthersFrom(lo: int, size: int, source: int): seq<Message>
    decreases size - lo
  {
    if lo >= size then []
    else (if lo != source then [Stop(lo)] else []) + StopOthersFrom(lo + 1, size, source)
  }

  function StopOthers(size: int, source: int): seq<Message>
  {
    StopOthersFrom(1, size, source)
  }

  /** Lines 50-68: one received result. A solved one stops every other rank
      and ends the loop; an unsolved one pulls the next task for the
      reporting rank, or stops that rank when no task is left. */
  function OnResult(m: Master, tasks: seq<SudokuTask>, size: int, r: Report): Master
    requires 0 <= m.taskIndex
  {
    if r.task.solved != 0 then
      m.(log := m.log + StopOthers(size, r.source), solution := Some(r))
    else if m.taskIndex < |tasks| then
      m.(log := m.log + [Work(r.source, tasks[m.taskIndex])], taskIndex := m.taskIndex + 1)
    else
      m.(log := m.log + [Stop(r.source)], activeWorkers := m.activeWorkers - 1)
  }

  /** The master after handling the given results in order. */
  function Steps(m: Master, tasks: seq<SudokuTask>, size: int, rs: seq<Report>): Master
    requires 0 <= m.taskIndex
    ensures 0 <= Steps(m, tasks, size, rs).taskIndex
  {
    if rs == [] then m
    else OnResult(Steps(m, tasks, size, rs[..|rs| - 1]), tasks, size, rs[|rs| - 1])
  }

  /** The tasks carried by the TAG_WORK messages of a log, in send order. */
  function SentTasks(log: seq<Message>): seq<SudokuTask>
  {
    if log == [] then []
    else SentTasks(log[..|log| - 1]) + (if log[|log| - 1].Work? then [log[|log| - 1].task] else [])
  }

  /** The stop loop of lines 55-58: STOP to every rank 1..size-1 except
      the one that reported the solution, in ascending order. */
  method BroadcastStop(log: seq<Message>, size: int, source: int) returns (log': seq<Message>)
    requires size >= 1
    ensures log' == log + StopOthers(size, source)
  {
    log' := log;
    var j := 1;
    while j < size
      invariant 1 <= j <= size
      invariant log' == log + StopOthersFrom(1, j, source)
    {
      if j != source {
        log' := log' + [Stop(j)];
      }
      StopOthersSnoc(1, j, source);
      j := j + 1;
    }
  }

  /** The master loop of lines 35-69. Results are taken from `incoming` in
      order while the master is running; `used` of them are consumed. */
  method RunMaster(tasks: seq<SudokuTask>, size: int, incoming: seq<Report>)
      returns (m: Master, used: nat)
    requires size >= 1
    ensures used <= |incoming|
    ensures m == Steps(InitialDispatch(tasks, size), tasks, size, incoming[..used])
    ensures forall j | 0 <= j < used ::
      Running(Steps(InitialDispatch(tasks, size), tasks, size, incoming[..j]))
    ensures used < |incoming| ==> !Running(m)
  {
    var taskIndex := 0;
    var activeWorkers := 0;
    var log: seq<Message> := [];
    var i := 1;
    while i < size && taskIndex < |tasks|
      invariant 1 <= i <= size && taskIndex == activeWorkers == i - 1 <= |tasks|
      invariant log == seq(taskIndex, t requires 0 <= t < taskIndex => Work(t + 1, tasks[t]))
    {
      log := log + [Work(i, tasks[taskIndex])];
      taskIndex := taskIndex + 1;
      activeWorkers := activeWorkers + 1;
      i := i + 1;
    }
    ghost var m0 := InitialDispatch(tasks, size);
    assert Master(taskIndex, activeWorkers, log, None) == m0;

    used := 0;
    var solution: Option<Report> := None;
    while activeWorkers > 0 && used < |incoming|
      invariant used <= |incoming| && solution.None?
      invariant Master(taskIndex, activeWorkers, log, solution)
        == Steps(m0, tasks, size, incoming[..used])
      invariant forall j | 0 <= j < used :: Running(Steps(m0, tasks, size, incoming[..j]))
    {
      var result := incoming[used];
      ghost var before := Master(taskIndex, activeWorkers, log, solution);
      assert incoming[..used + 1][..used] == incoming[..used];
      used := used + 1;
      assert Steps(m0, tasks, size, incoming[..used]) == OnResult(before, tasks, size, result);
      if result.task.solved != 0 {
        log := BroadcastStop(log, size, result.source);
        solution := Some(result);
        break;
      }
      if taskIndex < |tasks| {
        log := log + [Work(result.source, tasks[taskIndex])];
        taskIndex := taskIndex + 1;
      } else {
        log := log + [Stop(result.source)];
        activeWorkers := activeWorkers - 1;
      }
    }
    m := Master(taskIndex, activeWorkers, log, solution);
  }

  lemma {:induction false} StopOthersSnoc(lo: int, j: int, source: int)
    requires lo <= j
    ensures StopOthersFrom(lo, j + 1, source) ==
      StopOthersFrom(lo, j, source) + (if j != source then [Stop(j)] else [])
    decreases j - lo
  {
    if lo < j {
      StopOthersSnoc(lo + 1, j, source);
    }
  }

  // ---------------------------------------------------------------------
  // What the scheduler guarantees

  /** Results the master could still consume: tasks not yet sent plus
      workers still busy. */
  function Pending(m: Master, tasks: seq<SudokuTask>): int
  {
    |tasks| - m.taskIndex + m.activeWorkers
  }

  /** The scheduler invariant: counters in range, the tasks sent so far are
      exactly tasks[..task_index] in index order, and `active_workers` stays
      at its initial value until every task has been sent. */
  predicate Inv(m: Master, tasks: seq<SudokuTask>, size: int)
  {
    && 0 <= m.activeWorkers <= m.taskIndex <= |tasks|
    && SentTasks(m.log) == tasks[..m.taskIndex]
    && (m.activeWorkers == Min(size - 1, |tasks|) || m.taskIndex == |tasks|)
  }

  lemma {:induction false} SentTasksAppend(a: seq<Message>, b: seq<Message>)
    ensures SentTasks(a + b) == SentTasks(a) + SentTasks(b)
    decreases |b|
  {
    if b == [] {
      assert a + b == a;
    } else {
      var b' := b[..|b| - 1];
      assert (a + b)[..|a + b| - 1] == a + b';
      SentTasksAppend(a, b');
    }
  }

  /** The stop broadcast of lines 55-58: one TAG_STOP to each rank in
      1..size-1 other than the source, in increasing rank order, and no work. */
  lemma StopOthersSpec(size: int, source: int)
    ensures forall x | x in StopOthers(size, source) :: x.Stop?
    ensures forall i :: Stop(i) in StopOthers(size, source) <==> 1 <= i < size && i != source
    ensures forall a, b | 0 <= a < b < |StopOthers(size, source)| ::
      StopOthers(size, source)[a].dest < StopOthers(size, source)[b].dest
    ensures SentTasks(StopOthers(size, source)) == []
  {
    StopOthersFromMembers(1, size, source);
    StopOthersFromAscending(1, size, source);
    StopOthersFromNoWork(1, size, source);
  }

  lemma {:induction false} StopOthersFromMembers(lo: int, size: int, source: int)
    ensures forall x | x in StopOthersFrom(lo, size, source) :: x.Stop? && lo <= x.dest
    ensures forall i ::
      Stop(i) in StopOthersFrom(lo, size, source) <==> lo <= i < size && i != source
    decreases size - lo
  {
    if lo < size {
      StopOthersFromMembers(lo + 1, size, source);
    }
  }

  lemma {:induction false} StopOthersFromAscending(lo: int, size: int, source: int)
    ensures forall a, b | 0 <= a < b < |StopOthersFrom(lo, size, source)| ::
      StopOthersFrom(lo, size, source)[a].dest < StopOthersFrom(lo, size, source)[b].dest
    decreases size - lo
  {
    if lo < size {
      StopOthersFromAscending(lo + 1, size, source);
      if lo != source {
        StopOthersFromAbove(lo + 1, size, source);
        AscendingCons(lo, StopOthersFrom(lo + 1, size, source));
      }
    }
  }

  /** Every destination from lo on is at least lo. */
  lemma {:induction false} StopOthersFromAbove(lo: int, size: int, source: int)
    ensures forall t | 0 <= t < |StopOthersFrom(lo, size, source)| ::
      lo <= StopOthersFrom(lo, size, source)[t].dest
    decreases size - lo
  {
    if lo < size {
      StopOthersFromAbove(lo + 1, size, source);
    }
  }

  lemma AscendingCons(lo: int, rest: seq<Message>)
    requires forall t | 0 <= t < |rest| :: lo + 1 <= rest[t].dest
    requires forall a, b | 0 <= a < b < |rest| :: rest[a].dest < rest[b].dest
    ensures var all := [Stop(lo)] + rest;
      forall a, b | 0 <= a < b < |all| :: all[a].dest < all[b].dest
  {
    var all := [Stop(lo)] + rest;
    forall a, b | 0 <= a < b < |all| ensures all[a].dest < all[b].dest
    {
      assert all[b] == rest[b - 1];
      if a > 0 {
        assert all[a] == rest[a - 1];
      }
    }
  }

  lemma {:induction false} StopOthersFromNoWork(lo: int, size: int, source: int)
    ensures SentTasks(StopOthersFrom(lo, size, source)) == []
    decreases size - lo
  {
    if lo < size {
      var head: seq<Message> := if lo != source then [Stop(lo)] else [];
      var rest := StopOthersFrom(lo + 1, size, source);
      StopOthersFromNoWork(lo + 1, size, source);
      assert StopOthersFrom(lo, size, source) == head + rest;
      SentTasksAppend(head, rest);
      assert SentTasks(head) == [] by {
        if lo != source {
          assert head[..0] == [];
        }
      }
    }
  }

  /** Lines 40-44 and 46: after the initial dispatch task_index ==
      active_workers == k with k = min(size - 1, task_count), ranks 1..k hold
      tasks 0..k-1, and with no task or no worker the receive loop is not
      entered. */
  lemma InitialDispatchSpec(tasks: seq<SudokuTask>, size: int)
    requires size >= 1
    ensures var m := InitialDispatch(tasks, size);
      && m.taskIndex == m.activeWorkers == Min(size - 1, |tasks|)
      && |m.log| == m.taskIndex
      && (forall i | 0 <= i < |m.log| :: m.log[i] == Work(i + 1, tasks[i]))
      && Inv(m, tasks, size)
      && (|tasks| == 0 || size == 1 ==> !Running(m))
  {
    var m := InitialDispatch(tasks, size);
    SentWorkPrefix(m.log, tasks, |m.log|);
    assert m.log[..|m.log|] == m.log;
  }

  lemma {:induction false} SentWorkPrefix(log: seq<Message>, tasks: seq<SudokuTask>, n: nat)
    requires n <= |log| <= |tasks|
    requires forall i | 0 <= i < |log| :: log[i] == Work(i + 1, tasks[i])
    ensures SentTasks(log[..n]) == tasks[..n]
    decreases n
  {
    if n > 0 {
      assert log[..n][..n - 1] == log[..n - 1];
      SentWorkPrefix(log, tasks, n - 1);
      assert tasks[..n] == tasks[..n - 1] + [tasks[n - 1]];
    } else {
      assert log[..n] == [];
    }
  }

  /** One step of the loop keeps the invariant. An unsolved result lowers
      Pending by one: it either sends tasks[task_index] and advances
      task_index, active_workers unchanged, or stops the reporting rank and
      decrements active_workers. A solved result ends the loop. */
  lemma OnResultSpec(m: Master, tasks: seq<SudokuTask>, size: int, r: Report)
    requires Inv(m, tasks, size) && Running(m)
    ensures var m' := OnResult(m, tasks, size, r);
      && Inv(m', tasks, size)
      && (r.task.solved != 0 ==>
            && !Running(m') && m'.solution == Some(r)
            && m'.log == m.log + StopOthers(size, r.source)
            && m'.taskIndex == m.taskIndex && m'.activeWorkers == m.activeWorkers)
      && (r.task.solved == 0 ==>
            && Running(m) && Pending(m', tasks) == Pending(m, tasks) - 1
            && m'.solution.None?
            && (m.taskIndex < |tasks| ==>
                  && m'.log == m.log + [Work(r.source, tasks[m.taskIndex])]
                  && m'.taskIndex == m.taskIndex + 1 && m'.activeWorkers == m.activeWorkers)
            && (m.taskIndex == |tasks| ==>
                  && m'.log == m.log + [Stop(r.source)]
                  && m'.taskIndex == m.taskIndex && m'.activeWorkers == m.activeWorkers - 1))
  {
    var m' := OnResult(m, tasks, size, r);
    if r.task.solved != 0 {
      StopOthersSpec(size, r.source);
      SentTasksAppend(m.log, StopOthers(size, r.source));
    } else if m.taskIndex < |tasks| {
      var w: seq<Message> := [Work(r.source, tasks[m.taskIndex])];
      SentTasksAppend(m.log, w);
      assert SentTasks(w) == SentTasks([]) + [tasks[m.taskIndex]];
      assert tasks[..m.taskIndex + 1] == tasks[..m.taskIndex] + [tasks[m.taskIndex]];
    } else {
      var st: seq<Message> := [Stop(r.source)];
      SentTasksAppend(m.log, st);
      assert SentTasks(st) == SentTasks([]) + [];
    }
  }

  /** A run of the master loop on results rs, each consumed while the master
      was still running: the invariant holds, every result but possibly the
      last is unsolved, the master stops on the first solved result, and
      while nothing is solved each result lowers Pending by one, so at most
      task_count results are consumed. */
  lemma {:induction false} RunSpec(tasks: seq<SudokuTask>, size: int, rs: seq<Report>)
    requires size >= 1
    requires forall j | 0 <= j < |rs| ::
      Running(Steps(InitialDispatch(tasks, size), tasks, size, rs[..j]))
    ensures var m := Steps(InitialDispatch(tasks, size), tasks, size, rs);
      && Inv(m, tasks, size)
      && (forall j | 0 <= j < |rs| - 1 :: rs[j].task.solved == 0)
      && (m.solution.Some? <==> |rs| > 0 && rs[|rs| - 1].task.solved != 0)
      && (m.solution.Some? ==> m.solution.value == rs[|rs| - 1])
      && (m.solution.None? ==> Pending(m, tasks) == |tasks| - |rs| && |rs| <= |tasks|)
    decreases |rs|
  {
    var m0 := InitialDispatch(tasks, size);
    InitialDispatchSpec(tasks, size);
    if rs != [] {
      var rs' := rs[..|rs| - 1];
      forall j | 0 <= j < |rs'| ensures Running(Steps(m0, tasks, size, rs'[..j]))
      {
        assert rs'[..j] == rs[..j];
      }
      RunSpec(tasks, size, rs');
      assert rs[..|rs| - 1] == rs';
      var m := Steps(m0, tasks, size, rs');
      assert Running(m);
      OnResultSpec(m, tasks, size, rs[|rs| - 1]);
      if m.solution.None? {
        assert Pending(m, tasks) >= 1;
      }
    }
  }

  /** Lines 46 and 65-68: if the loop ends with no solution and there was a
      worker, every task was sent exactly once in index order and exactly
      task_count results were consumed. */
  lemma AllTasksSent(tasks: seq<SudokuTask>, size: int, rs: seq<Report>)
    requires size >= 2
    requires forall j | 0 <= j < |rs| ::
      Running(Steps(InitialDispatch(tasks, size), tasks, size, rs[..j]))
    requires !Running(Steps(InitialDispatch(tasks, size), tasks, size, rs))
    requires Steps(InitialDispatch(tasks, size), tasks, size, rs).solution.None?
    ensures var m := Steps(InitialDispatch(tasks, size), tasks, size, rs);
      && m.taskIndex == |tasks|
      && SentTasks(m.log) == tasks
      && |rs| == |tasks|
  {
    RunSpec(tasks, size, rs);
    var m := Steps(InitialDispatch(tasks, size), tasks, size, rs);
    assert tasks[..|tasks|] == tasks;
  }

  // ---------------------------------------------------------------------
  // The worker

  /** What a worker sends back for a received task (lines 77-83): the grid
      as `solve_sudoku` leaves it, with `solved` set to its return value. */
  function WorkerResult(t: SudokuTask): SudokuTask
    requires |t.grid| == 81
  {
    var s := Search(t.grid);
    if s.Some? then SudokuTask(s.value, 1) else SudokuTask(t.grid, 0)
  }

  /** One pass of the worker loop (lines 74-83): TAG_STOP ends the worker;
      any other tag has the task solved in place and sent back. */
  method WorkerStep(tag: int, task: SudokuTask) returns (exit: bool, reply: Option<SudokuTask>)
    requires |task.grid| == 81
    ensures exit <==> tag == TagStop
    ensures exit ==> reply.None?
    ensures !exit ==> reply == Some(WorkerResult(task))
  {
    if tag == TagStop {
      return true, None;
    }
    var grid := new int[81](i => if 0 <= i < 81 then task.grid[i] else 0);
    assert grid[..] == task.grid;
    var ok := SolveSudoku(grid);
    var solved := if ok then 1 else 0;
    return false, Some(SudokuTask(grid[..], solved));
  }

  /** The index of the first TAG_STOP in an inbox, or its length. */
  function FirstStop(inbox: seq<(int, SudokuTask)>): (n: nat)
    ensures n <= |inbox|
    ensures forall i | 0 <= i < n :: inbox[i].0 != TagStop
    ensures n < |inbox| ==> inbox[n].0 == TagStop
  {
    if inbox == [] then 0
    else if inbox[0].0 == TagStop then 0
    else 1 + FirstStop(inbox[1..])
  }

  /** The worker loop (lines 73-84) over the messages it receives, in order:
      it answers every message before the first TAG_STOP and exits on that
      one; `exited` is false when the inbox runs out first. */
  method Worker(inbox: seq<(int, SudokuTask)>) returns (replies: seq<SudokuTask>, exited: bool)
    requires forall i | 0 <= i < |inbox| :: |inbox[i].1.grid| == 81
    ensures exited <==> exists i | 0 <= i < |inbox| :: inbox[i].0 == TagStop
    ensures |replies| == FirstStop(inbox)
    ensures forall i | 0 <= i < |replies| :: replies[i] == WorkerResult(inbox[i].1)
  {
    replies := [];
    exited := false;
    var i := 0;
    while i < |inbox|
      invariant 0 <= i <= |inbox| && |replies| == i && !exited
      invariant forall j | 0 <= j < i :: inbox[j].0 != TagStop
      invariant forall j | 0 <= j < i :: replies[j] == WorkerResult(inbox[j].1)
    {
      var exit, reply := WorkerStep(inbox[i].0, inbox[i].1);
      if exit {
        exited := true;
        break;
      }
      replies := replies + [reply.value];
      i := i + 1;
    }
  }

  // ---------------------------------------------------------------------
  // Master and workers together

  /** A worker's result means what it says: solved == 1 carries a complete
      grid that keeps the task's non-zero cells and is consistent when the
      task is; solved == 0 returns the task grid untouched, and then no
      solution agrees with the task. */
  lemma WorkerResultSpec(t: SudokuTask)
    requires |t.grid| == 81
    ensures var r := WorkerResult(t);
      && (r.solved == 1 || r.solved == 0)
      && (r.solved == 1 ==> SoundResult(t.grid, r.grid))
      && (r.solved == 0 ==> r.grid == t.grid && forall s :: Solved(s) ==> !Extends(t.grid, s))
  {
    SearchSound(t.grid);
    forall s | Solved(s) ensures Search(t.grid).None? ==> !Extends(t.grid, s)
    {
      if Extends(t.grid, s) {
        SearchComplete(t.grid, s);
      }
    }
  }

  /** Distributing the tasks of generate_initial_tasks to the workers decides
      the puzzle as the sequential search does: some worker reports solved
      exactly when sequential search of the puzzle succeeds, and a solved
      report is a consistent completion of a consistent puzzle. */
  lemma DistributedAgrees(g: seq<int>)
    requires |g| == 81 && FirstEmpty(g).Some?
    ensures (exists t | 0 <= t < |Partition(g)| :: WorkerResult(Partition(g)[t]).solved == 1)
      <==> Search(g).Some?
    ensures Consistent(g) ==> forall t | 0 <= t < |Partition(g)| ::
      var r := WorkerResult(Partition(g)[t]);
      r.solved == 1 ==>
        |r.grid| == 81 && Complete(r.grid) && Consistent(r.grid) && Extends(g, r.grid)
  {
    PartitionShape(g);
    PartitionSolvable(g);
    if Consistent(g) {
      PartitionConsistent(g);
      forall t | 0 <= t < |Partition(g)|
        ensures var r := WorkerResult(Partition(g)[t]);
          r.solved == 1 ==>
            |r.grid| == 81 && Complete(r.grid) && Consistent(r.grid) && Extends(g, r.grid)
      {
        var task := Partition(g)[t];
        SearchSound(task.grid);
        if Search(task.grid).Some? {
          ExtendsTrans(g, task.grid, Search(task.grid).value);
        }
      }
    }
  }
}
