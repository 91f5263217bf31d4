/**
 * One task per table on a thread pool, and the fold of their statuses.  The tasks share one
 * heap; because the tables of a database are different objects, every interleaving of their
 * steps ends as the tasks run one after the other.
 */
module Parallel {
  import opened Catalogues
  import opened Common
  import opened Databases
  import opened JsonForms
  import opened Records
  import opened Serializers
  import opened Tables

  /** What a task sees: its table, the operations it still has to do on it, and its result once it has one. */
  datatype Task = Task(schema: seq<ColumnDef>, table: TableVal, todo: seq<Op>, result: Option<Status>)

  /** One step of a task: its next operation, or its end. */
  function StepTask(t: Task): Task {
    if t.result.Some? then t
    else if t.todo == [] then t.(result := Some(OK))
    else
      var (status, table) := Exec(t.schema, t.table, t.todo[0]);
      Task(t.schema, table, t.todo[1..], if status == OK then None else Some(status))
  }

  /** A task run by itself to its end. */
  function Finish(t: Task): (done: Task)
    ensures done.result.Some?
    decreases |t.todo|
  {
    if t.result.Some? then t
    else if t.todo == [] then t.(result := Some(OK))
    else
      var next := StepTask(t);
      if next.result.Some? then next else Finish(next)
  }

  lemma StepKeepsEnd(t: Task)
    ensures Finish(StepTask(t)) == Finish(t)
  {
    hide Exec;
  }

  /** A task does its operations in order, up to the first that does not return OK; that one's status is its result. */
  lemma FinishIsExecAll(schema: seq<ColumnDef>, t: TableVal, ops: seq<Op>) returns (k: nat)
    ensures k <= |ops|
    ensures var (ss, u) := ExecAll(schema, t, ops[..k]);
      var done := Finish(Task(schema, t, ops, None));
      && (forall s <- ss :: s == OK)
      && (k == |ops| ==> done.result == Some(OK) && done.table == u)
      && (k < |ops| ==>
            var (status, now) := Exec(schema, u, ops[k]);
            status != OK && done.result == Some(status) && done.table == now)
  {
    hide Exec, Finish;
    assert ops[..0] == [] && ops[0..] == ops;
    k := FinishFrom(schema, t, ops, 0, t);
  }

  lemma {:induction false} FinishFrom(schema: seq<ColumnDef>, t: TableVal, ops: seq<Op>, j: nat, u: TableVal) returns (k: nat)
    requires j <= |ops| && ExecAll(schema, t, ops[..j]).1 == u
    requires forall s <- ExecAll(schema, t, ops[..j]).0 :: s == OK
    ensures k <= |ops|
    ensures var (ss, v) := ExecAll(schema, t, ops[..k]);
      var done := Finish(Task(schema, u, ops[j..], None));
      && (forall s <- ss :: s == OK)
      && (k == |ops| ==> done.result == Some(OK) && done.table == v)
      && (k < |ops| ==>
            var (status, now) := Exec(schema, v, ops[k]);
            status != OK && done.result == Some(status) && done.table == now)
    decreases |ops| - j
  {
    hide Exec;
    k := j;
    if j < |ops| {
      var (status, now) := Exec(schema, u, ops[j]);
      assert ops[j..][0] == ops[j] && ops[j..][1..] == ops[j + 1..];
      if status == OK {
        assert ops[..j + 1][..j] == ops[..j];
        k := FinishFrom(schema, t, ops, j + 1, now);
      }
    }
  }

  // ---------------------------------------------------------------------------
  //  Interleavings
  // ---------------------------------------------------------------------------

  /** The tasks after the pool's threads did their steps in this order. */
  function Scheduled(ts: seq<Task>, order: seq<nat>): (now: seq<Task>)
    ensures |now| == |ts|
    decreases |order|
  {
    if order == [] then ts
    else
      var before, k := Scheduled(ts, order[..|order| - 1]), order[|order| - 1];
      if k < |before| then before[k := StepTask(before[k])] else before
  }

  ghost predicate AllDone(ts: seq<Task>) {
    forall i :: 0 <= i < |ts| ==> ts[i].result.Some?
  }

  lemma {:induction false} ScheduleKeepsEnds(ts: seq<Task>, order: seq<nat>, i: nat)
    requires i < |ts|
    ensures Finish(Scheduled(ts, order)[i]) == Finish(ts[i])
    decreases |order|
  {
    hide StepTask, Finish;
    if order != [] {
      var n := |order| - 1;
      ScheduleKeepsEnds(ts, order[..n], i);
      StepKeepsEnd(Scheduled(ts, order[..n])[i]);
    }
  }

  lemma FinishedIsEnd(t: Task)
    requires t.result.Some?
    ensures Finish(t) == t
  {
  }

  // ---------------------------------------------------------------------------
  //  Tasks that share a heap
  // ---------------------------------------------------------------------------

  /** A task as it is handed over: where its table is, what it has still to do there, and its result. */
  datatype Job = Job(cell: TableCell, todo: seq<Op>, result: Option<Status>)

  /** What is in the cells, and the jobs at work on it. */
  datatype Shared = Shared(heap: map<TableCell, NamedTable>, jobs: seq<Job>)

  function TaskOf(t: NamedTable, job: Job): Task {
    Task(t.schema, t.table, job.todo, job.result)
  }

  function CellsOf(jobs: seq<Job>): (cells: seq<TableCell>)
    ensures |cells| == |jobs|
    ensures forall i :: 0 <= i < |jobs| ==> cells[i] == jobs[i].cell
  {
    seq(|jobs|, i requires 0 <= i < |jobs| => jobs[i].cell)
  }

  ghost predicate InHeap(s: Shared) {
    forall i :: 0 <= i < |s.jobs| ==> s.jobs[i].cell in s.heap
  }

  ghost function TasksOf(s: Shared): (ts: seq<Task>)
    requires InHeap(s)
    ensures |ts| == |s.jobs|
    ensures forall i :: 0 <= i < |ts| ==> ts[i] == TaskOf(s.heap[s.jobs[i].cell], s.jobs[i])
  {
    seq(|s.jobs|, i requires 0 <= i < |s.jobs| => TaskOf(s.heap[s.jobs[i].cell], s.jobs[i]))
  }

  /** A step of job `k`, on whatever is in its cell by now. */
  ghost function StepJob(s: Shared, k: nat): Shared
    requires k < |s.jobs| && s.jobs[k].cell in s.heap
  {
    var job := s.jobs[k];
    var t := s.heap[job.cell];
    var next := StepTask(TaskOf(t, job));
    Shared(s.heap[job.cell := t.(table := next.table)], s.jobs[k := Job(job.cell, next.todo, next.result)])
  }

  /** The heap and the jobs after the pool's threads did their steps in this order. */
  ghost function Interleaved(s: Shared, order: seq<nat>): (now: Shared)
    requires InHeap(s)
    ensures InHeap(now) && CellsOf(now.jobs) == CellsOf(s.jobs)
    decreases |order|
  {
    if order == [] then s
    else
      var before, k := Interleaved(s, order[..|order| - 1]), order[|order| - 1];
      if k < |before.jobs| then StepJob(before, k) else before
  }

  /** The part of a table that no task changes. */
  function Label(t: NamedTable): NamedTable {
    t.(table := EMPTY_TABLE)
  }

  /** Only the tables of the jobs have changed, and of those only what is in them. */
  ghost predicate OnlyTables(s: Shared, now: Shared) {
    && now.heap.Keys == s.heap.Keys
    && (forall c <- s.heap :: Label(now.heap[c]) == Label(s.heap[c]))
    && (forall c <- s.heap :: c !in CellsOf(s.jobs) ==> now.heap[c] == s.heap[c])
  }

  lemma OneJobStep(s: Shared, k: nat)
    requires InHeap(s) && DistinctCells(CellsOf(s.jobs)) && k < |s.jobs|
    ensures var now := StepJob(s, k);
      InHeap(now) && TasksOf(now) == TasksOf(s)[k := StepTask(TasksOf(s)[k])] && OnlyTables(s, now)
  {
    hide StepTask;
    var now, cells := StepJob(s, k), CellsOf(s.jobs);
    SameSchema(TasksOf(s)[k]);
    forall i | 0 <= i < |s.jobs| && i != k
      ensures TasksOf(now)[i] == TasksOf(s)[i]
    {
      assert cells[i] != cells[k];
    }
    assert cells[k] in cells;
  }

  lemma SameSchema(t: Task)
    ensures StepTask(t).schema == t.schema
  {
    hide Exec;
  }

  /** Jobs in different cells run on the shared heap as tasks with tables of their own. */
  lemma {:induction false} CellsApartTasksApart(s: Shared, order: seq<nat>)
    requires InHeap(s) && DistinctCells(CellsOf(s.jobs))
    ensures TasksOf(Interleaved(s, order)) == Scheduled(TasksOf(s), order)
    ensures OnlyTables(s, Interleaved(s, order))
    decreases |order|
  {
    hide StepTask, StepJob, Label, DistinctCells;
    if order != [] {
      var n := |order| - 1;
      CellsApartTasksApart(s, order[..n]);
      var before := Interleaved(s, order[..n]);
      if order[n] < |before.jobs| {
        OneJobStep(before, order[n]);
      }
    }
  }

  /**
   * However the steps of the jobs are interleaved on the heap: if their cells are different, as
   * those of a database are, then once all are done each table and each result is what its task
   * alone produces, and nothing else has changed.
   */
  lemma OrderDoesNotMatter(s: Shared, order: seq<nat>)
    requires InHeap(s) && DistinctCells(CellsOf(s.jobs))
    requires AllDone(TasksOf(Interleaved(s, order)))
    ensures var now := Interleaved(s, order);
      && (forall i :: 0 <= i < |s.jobs| ==> TasksOf(now)[i] == Finish(TasksOf(s)[i]))
      && OnlyTables(s, now)
  {
    hide Finish, Scheduled, StepTask, DistinctCells, Interleaved, OnlyTables;
    CellsApartTasksApart(s, order);
    forall i | 0 <= i < |s.jobs|
      ensures Scheduled(TasksOf(s), order)[i] == Finish(TasksOf(s)[i])
    {
      ScheduleKeepsEnds(TasksOf(s), order, i);
      FinishedIsEnd(Scheduled(TasksOf(s), order)[i]);
    }
  }

  /** A table ends the same whatever becomes of the others: a failure undoes nobody's success. */
  lemma OthersDoNotMatter(s: Shared, order: seq<nat>, s': Shared, order': seq<nat>, i: nat)
    requires InHeap(s) && DistinctCells(CellsOf(s.jobs)) && AllDone(TasksOf(Interleaved(s, order)))
    requires InHeap(s') && DistinctCells(CellsOf(s'.jobs)) && AllDone(TasksOf(Interleaved(s', order')))
    requires i < |s.jobs| && i < |s'.jobs| && TasksOf(s)[i] == TasksOf(s')[i]
    ensures TasksOf(Interleaved(s, order))[i] == TasksOf(Interleaved(s', order'))[i]
  {
    hide Finish, Interleaved, DistinctCells;
    OrderDoesNotMatter(s, order);
    OrderDoesNotMatter(s', order');
  }

  /** What is in the cells of a database. */
  ghost function HeapOf(cells: seq<TableCell>): map<TableCell, NamedTable>
    reads cells
  {
    map c | c in cells :: c.value
  }

  /** One job for each table of a database: the cells are different, because the database is valid. */
  lemma DatabaseJobsApart(db: Database, jobs: seq<Job>)
    requires db.Valid() && CellsOf(jobs) == db.tables
    ensures InHeap(Shared(HeapOf(db.tables), jobs)) && DistinctCells(CellsOf(jobs))
  {
    hide DistinctCells, AllAlive;
    forall i | 0 <= i < |jobs|
      ensures jobs[i].cell in HeapOf(db.tables)
    {
      assert CellsOf(jobs)[i] in db.tables;
    }
  }

  lemma OneMoreStep(s: Shared, order: seq<nat>, k: nat)
    requires InHeap(s) && k < |s.jobs|
    ensures |Interleaved(s, order).jobs| == |s.jobs|
    ensures Interleaved(s, order + [k]) == StepJob(Interleaved(s, order), k)
  {
    hide StepJob;
    assert |CellsOf(Interleaved(s, order).jobs)| == |s.jobs|;
    assert (order + [k])[..|order|] == order;
  }

  /** One cell with this in it, and jobs that work there. */
  function OneCell(cell: TableCell, t: TableVal, jobs: seq<Job>): Shared {
    Shared(map[cell := NamedTable("", 0, [], t)], jobs)
  }

  lemma OneCellStep(cell: TableCell, t: TableVal, jobs: seq<Job>, k: nat, next: Task)
    requires k < |jobs| && jobs[k].cell == cell
    requires StepTask(Task([], t, jobs[k].todo, jobs[k].result)) == next
    ensures StepJob(OneCell(cell, t, jobs), k) ==
      OneCell(cell, next.table, jobs[k := Job(cell, next.todo, next.result)])
  {
    hide StepTask;
    var s := OneCell(cell, t, jobs);
    var now := s.heap[cell := NamedTable("", 0, [], next.table)];
    assert now == map[cell := NamedTable("", 0, [], next.table)];
  }

  /** Two jobs in one cell, each with one insert: job `k` goes first, and the other is refused. */
  lemma RaceEnds(cell: TableCell, jobs: seq<Job>, k: nat, first: Record, second: Record)
    requires k < 2 && |jobs| == 2 && first.id == second.id
    requires jobs[k] == Job(cell, [Insert(first)], None) && jobs[1 - k] == Job(cell, [Insert(second)], None)
    ensures var s, after := OneCell(cell, EMPTY_TABLE, jobs), Exec([], EMPTY_TABLE, Insert(first)).1;
      && InHeap(s)
      && Interleaved(s, [k, k, 1 - k]) ==
           OneCell(cell, after, jobs[k := Job(cell, [], Some(OK))][1 - k := Job(cell, [], Some(DUPLICATE_KEY))])
  {
    hide Exec, StepTask, StepJob, Interleaved, Contents;
    var s, after := OneCell(cell, EMPTY_TABLE, jobs), Exec([], EMPTY_TABLE, Insert(first)).1;
    assert [] + [k] == [k] && [k] + [k] == [k, k] && [k, k] + [1 - k] == [k, k, 1 - k];
    OneMoreStep(s, [], k);
    OneMoreStep(s, [k], k);
    OneMoreStep(s, [k, k], 1 - k);
    NoStepYet(s);
    FirstInsert(first, second);
    InsertTask(EMPTY_TABLE, first);
    OneCellStep(cell, EMPTY_TABLE, jobs, k, Task([], after, [], None));
    EndOfTask(after);
    var started := jobs[k := Job(cell, [], None)];
    OneCellStep(cell, after, started, k, Task([], after, [], Some(OK)));
    InsertTask(after, second);
    var ended := started[k := Job(cell, [], Some(OK))];
    assert ended == jobs[k := Job(cell, [], Some(OK))];
    OneCellStep(cell, after, ended, 1 - k, Task([], after, [], Some(DUPLICATE_KEY)));
  }

  lemma NoStepYet(s: Shared)
    requires InHeap(s)
    ensures Interleaved(s, []) == s
  {
  }

  lemma InsertTask(t: TableVal, r: Record)
    ensures var (status, now) := Exec([], t, Insert(r));
      StepTask(Task([], t, [Insert(r)], None)) == Task([], now, [], if status == OK then None else Some(status))
  {
    hide Exec;
    assert [Insert(r)][1..] == [];
  }

  lemma EndOfTask(t: TableVal)
    ensures StepTask(Task([], t, [], None)) == Task([], t, [], Some(OK))
  {
  }

  lemma FirstInsert(first: Record, second: Record)
    ensures var (status, t) := Exec([], EMPTY_TABLE, Insert(first));
      && status == OK && Contents(t) == map[first.id := first.data]
      && (second.id == first.id ==> Exec([], t, Insert(second)) == (DUPLICATE_KEY, t))
  {
    NothingYet();
    ExecRefines([], EMPTY_TABLE, Insert(first));
  }

  lemma NothingYet()
    ensures TableOk([], EMPTY_TABLE) && Contents(EMPTY_TABLE) == map[]
  {
    assert Rows([]) == [] && RowMap([]) == map[];
  }

  /** That the cells are different matters: on one table the order decides which of two inserts is refused. */
  lemma SharedCellRaces(cell: TableCell, a: Record, b: Record)
    requires a.id == b.id && a.data != b.data
    ensures var s := OneCell(cell, EMPTY_TABLE, [Job(cell, [Insert(a)], None), Job(cell, [Insert(b)], None)]);
      && InHeap(s)
      && AllDone(TasksOf(Interleaved(s, [0, 0, 1]))) && AllDone(TasksOf(Interleaved(s, [1, 1, 0])))
      && Interleaved(s, [0, 0, 1]).heap[cell] != Interleaved(s, [1, 1, 0]).heap[cell]
  {
    hide Contents, Interleaved, Exec;
    var jobs := [Job(cell, [Insert(a)], None), Job(cell, [Insert(b)], None)];
    RaceEnds(cell, jobs, 0, a, b);
    RaceEnds(cell, jobs, 1, b, a);
    FirstInsert(a, b);
    FirstInsert(b, a);
    assert map[a.id := a.data][a.id] != map[b.id := b.data][a.id];
  }

  // ---------------------------------------------------------------------------
  //  The status of them all
  // ---------------------------------------------------------------------------

  /** The statuses of the tasks, in the order of the tables. */
  function Results(ts: seq<Task>): (ss: seq<Status>)
    ensures |ss| == |ts|
    ensures forall i :: 0 <= i < |ts| ==> ss[i] == Finish(ts[i]).result.value
  {
    seq(|ts|, i requires 0 <= i < |ts| => Finish(ts[i]).result.value)
  }

  /** The overall status: OK if all are, and otherwise that of the last table that is not. */
  ghost predicate LastFailureWins(ss: seq<Status>, overall: Status) {
    if forall s <- ss :: s == OK then overall == OK
    else exists i :: 0 <= i < |ss| && ss[i] != OK && overall == ss[i] && forall j :: i < j < |ss| ==> ss[j] == OK
  }

  lemma OneMoreStatus(ss: seq<Status>, overall: Status, s: Status)
    requires LastFailureWins(ss, overall)
    ensures LastFailureWins(ss + [s], if s != OK then s else overall)
  {
    var now := ss + [s];
    assert now[|ss|] == s;
    if s != OK {
      assert now[|ss|] in now;
    } else if forall r <- ss :: r == OK {
      assert forall r <- now :: r == OK;
    } else {
      var i :| 0 <= i < |ss| && ss[i] != OK && overall == ss[i] && forall j :: i < j < |ss| ==> ss[j] == OK;
      assert now[i] == ss[i] && now[i] in now;
    }
  }

  // ---------------------------------------------------------------------------
  //  The pool
  // ---------------------------------------------------------------------------

  function Work(ts: seq<Task>): nat
    decreases |ts|
  {
    if ts == [] then 0
    else
      var last := ts[|ts| - 1];
      Work(ts[..|ts| - 1]) + if last.result.Some? then 0 else 1 + |last.todo|
  }

  lemma {:induction false} LessWork(ts: seq<Task>, k: nat)
    requires k < |ts| && ts[k].result.None?
    ensures Work(ts[k := StepTask(ts[k])]) < Work(ts)
    decreases |ts|
  {
    hide Exec;
    var n := |ts| - 1;
    var now := ts[k := StepTask(ts[k])];
    if k < n {
      LessWork(ts[..n], k);
      assert now[..n] == ts[..n][k := StepTask(ts[k])];
    } else {
      assert now[..n] == ts[..n];
    }
  }

  /** The tasks handed over so far, each on its way to its own end. */
  ghost predicate OnTheirWay(running: seq<Task>, tasks: seq<Task>) {
    |running| <= |tasks| && forall i :: 0 <= i < |running| ==> Finish(running[i]) == Finish(tasks[i])
  }

  /** What the jobs see in their cells now. */
  ghost function TasksNow(jobs: seq<Job>): (ts: seq<Task>)
    reads CellsOf(jobs)
    ensures |ts| == |jobs|
    ensures forall i :: 0 <= i < |jobs| ==> ts[i] == TaskOf(jobs[i].cell.value, jobs[i])
  {
    seq(|jobs|, i requires 0 <= i < |jobs| reads CellsOf(jobs) =>
      assert jobs[i].cell == CellsOf(jobs)[i]; TaskOf(jobs[i].cell.value, jobs[i]))
  }

  /** Some thread does a step of some unfinished job. */
  method AnyThread(running: seq<Job>, ghost tasks: seq<Task>) returns (now: seq<Job>)
    requires DistinctCells(CellsOf(running)) && OnTheirWay(TasksNow(running), tasks)
    requires exists k :: 0 <= k < |running| && running[k].result.None?
    modifies CellsOf(running)
    ensures CellsOf(now) == CellsOf(running) && OnTheirWay(TasksNow(now), tasks)
    ensures Work(TasksNow(now)) < Work(old(TasksNow(running)))
    ensures forall i :: 0 <= i < |now| && running[i].result.Some? ==> now[i] == running[i]
    ensures forall c <- CellsOf(running) :: Label(c.value) == old(Label(c.value)) && c.alive == old(c.alive)
  {
    hide StepTask, Finish, Work;
    var k :| 0 <= k < |running| && running[k].result.None?;
    var job := running[k];
    ghost var cells, was := CellsOf(running), TasksNow(running);
    assert cells[k] in cells && forall i :: 0 <= i < |cells| && i != k ==> cells[i] != cells[k];
    SameSchema(was[k]);
    StepKeepsEnd(was[k]);
    LessWork(was, k);
    var next := StepTask(TaskOf(job.cell.value, job));
    job.cell.value := job.cell.value.(table := next.table);
    now := running[k := Job(job.cell, next.todo, next.result)];
    assert TasksNow(now) == was[k := StepTask(was[k])];
  }

  /** Any number of steps. */
  method Meanwhile(running: seq<Job>, ghost tasks: seq<Task>) returns (now: seq<Job>)
    requires DistinctCells(CellsOf(running)) && OnTheirWay(TasksNow(running), tasks)
    modifies CellsOf(running)
    ensures CellsOf(now) == CellsOf(running) && OnTheirWay(TasksNow(now), tasks)
    ensures forall i :: 0 <= i < |now| && running[i].result.Some? ==> now[i] == running[i]
    ensures forall c <- CellsOf(running) :: Label(c.value) == old(Label(c.value)) && c.alive == old(c.alive)
  {
    hide OnTheirWay, Work, DistinctCells, TasksNow, Label;
    now := running;
    var more: bool := *;
    while more && exists k :: 0 <= k < |now| && now[k].result.None?
      invariant CellsOf(now) == CellsOf(running) && OnTheirWay(TasksNow(now), tasks)
      invariant forall i :: 0 <= i < |now| && running[i].result.Some? ==> now[i] == running[i]
      invariant forall c <- CellsOf(running) :: Label(c.value) == old(Label(c.value)) && c.alive == old(c.alive)
      decreases Work(TasksNow(now))
    {
      now := AnyThread(now, tasks);
      more := *;
    }
  }

  /** Waits for one result. */
  method Await(running: seq<Job>, k: nat, ghost tasks: seq<Task>) returns (now: seq<Job>)
    requires DistinctCells(CellsOf(running)) && OnTheirWay(TasksNow(running), tasks) && k < |running|
    modifies CellsOf(running)
    ensures CellsOf(now) == CellsOf(running) && OnTheirWay(TasksNow(now), tasks) && now[k].result.Some?
    ensures forall i :: 0 <= i < |now| && running[i].result.Some? ==> now[i] == running[i]
    ensures forall c <- CellsOf(running) :: Label(c.value) == old(Label(c.value)) && c.alive == old(c.alive)
  {
    hide OnTheirWay, Work, DistinctCells, TasksNow, Label;
    now := running;
    while now[k].result.None?
      invariant CellsOf(now) == CellsOf(running) && OnTheirWay(TasksNow(now), tasks)
      invariant forall i :: 0 <= i < |now| && running[i].result.Some? ==> now[i] == running[i]
      invariant forall c <- CellsOf(running) :: Label(c.value) == old(Label(c.value)) && c.alive == old(c.alive)
      decreases Work(TasksNow(now))
    {
      now := AnyThread(now, tasks);
    }
  }

  lemma CellsSplit(cells: seq<TableCell>, i: nat)
    requires DistinctCells(cells) && i <= |cells|
    ensures DistinctCells(cells[..i])
    ensures forall c <- cells[..i] :: c in cells
    ensures forall j :: i <= j < |cells| ==> cells[j] !in cells[..i]
  {
  }

  /** One more job on its way: it has done nothing yet. */
  lemma HandedOver(running: seq<Job>, job: Job, tasks: seq<Task>)
    requires OnTheirWay(TasksNow(running), tasks) && |running| < |tasks|
    requires TaskOf(job.cell.value, job) == tasks[|running|]
    ensures OnTheirWay(TasksNow(running + [job]), tasks)
    ensures CellsOf(running + [job]) == CellsOf(running) + [job.cell]
  {
    hide Finish;
    assert TasksNow(running + [job]) == TasksNow(running) + [tasks[|running|]];
  }

  /** Hands one job after the other to the pool, whose threads are at work all the while. */
  method Enqueue(jobs: seq<Job>) returns (running: seq<Job>)
    requires DistinctCells(CellsOf(jobs))
    modifies CellsOf(jobs)
    ensures CellsOf(running) == CellsOf(jobs)
    ensures OnTheirWay(TasksNow(running), old(TasksNow(jobs)))
    ensures forall c <- CellsOf(jobs) :: Label(c.value) == old(Label(c.value)) && c.alive == old(c.alive)
  {
    hide DistinctCells, OnTheirWay, Label, TasksNow;
    ghost var cells, tasks := CellsOf(jobs), TasksNow(jobs);
    running := [];
    NothingOnItsWay(tasks);
    for i := 0 to |jobs|
      invariant CellsOf(running) == cells[..i] && OnTheirWay(TasksNow(running), tasks)
      invariant forall j :: i <= j < |jobs| ==> jobs[j].cell.value == old(jobs[j].cell.value)
      invariant forall c <- cells :: Label(c.value) == old(Label(c.value)) && c.alive == old(c.alive)
    {
      assert |CellsOf(running)| == i;
      HandedOver(running, jobs[i], tasks);
      running := running + [jobs[i]];
      assert cells[..i + 1] == cells[..i] + [cells[i]];
      CellsSplit(cells, i + 1);
      assert forall j :: i + 1 <= j < |jobs| ==> cells[j] == jobs[j].cell;
      running := Meanwhile(running, tasks);
    }
  }

  lemma NothingOnItsWay(tasks: seq<Task>)
    ensures TasksNow([]) == [] && OnTheirWay([], tasks)
  {
  }

  lemma EndedIs(running: seq<Job>, tasks: seq<Task>, i: nat)
    requires OnTheirWay(TasksNow(running), tasks) && i < |running| && running[i].result.Some?
    ensures |running| <= |tasks| && TasksNow(running)[i] == Finish(tasks[i])
    ensures i < |Results(tasks)| && running[i].result.value == Results(tasks)[i]
  {
    hide Finish;
    FinishedIsEnd(TasksNow(running)[i]);
  }

  lemma OneMoreResult(tasks: seq<Task>, i: nat, overall: Status, s: Status)
    requires i < |Results(tasks)| && LastFailureWins(Results(tasks)[..i], overall) && s == Results(tasks)[i]
    ensures LastFailureWins(Results(tasks)[..i + 1], if s != OK then s else overall)
  {
    hide Results, LastFailureWins;
    OneMoreStatus(Results(tasks)[..i], overall, s);
    assert Results(tasks)[..i + 1] == Results(tasks)[..i] + [s];
  }

  /** Collects the results in order, while the threads go on. */
  method Collect(running: seq<Job>, ghost tasks: seq<Task>) returns (overall: Status, ended: seq<Job>)
    requires DistinctCells(CellsOf(running)) && OnTheirWay(TasksNow(running), tasks) && |running| == |tasks|
    modifies CellsOf(running)
    ensures CellsOf(ended) == CellsOf(running)
    ensures forall i :: 0 <= i < |running| ==> TasksNow(ended)[i] == Finish(tasks[i])
    ensures LastFailureWins(Results(tasks), overall)
    ensures forall c <- CellsOf(running) :: Label(c.value) == old(Label(c.value)) && c.alive == old(c.alive)
  {
    hide DistinctCells, OnTheirWay, Label, TasksNow, LastFailureWins, Finish, Results, CellsOf;
    overall, ended := OK, running;
    NoStatusYet();
    for i := 0 to |running|
      invariant CellsOf(ended) == CellsOf(running) && |ended| == |running| && OnTheirWay(TasksNow(ended), tasks)
      invariant forall j :: 0 <= j < i ==> ended[j].result.Some?
      invariant LastFailureWins(Results(tasks)[..i], overall)
      invariant forall c <- CellsOf(running) :: Label(c.value) == old(Label(c.value)) && c.alive == old(c.alive)
    {
      ended := Await(ended, i, tasks);
      assert |CellsOf(ended)| == |running|;
      EndedIs(ended, tasks, i);
      var s := ended[i].result.value;
      OneMoreResult(tasks, i, overall, s);
      if s != OK {
        overall := s;
      }
    }
    assert Results(tasks)[..|tasks|] == Results(tasks);
    forall i | 0 <= i < |running|
      ensures TasksNow(ended)[i] == Finish(tasks[i])
    {
      EndedIs(ended, tasks, i);
    }
  }

  /** Hands every job to the pool, then collects the results in order. */
  method RunParallel(jobs: seq<Job>) returns (overall: Status, ended: seq<Job>)
    requires DistinctCells(CellsOf(jobs))
    modifies CellsOf(jobs)
    ensures CellsOf(ended) == CellsOf(jobs)
    ensures forall i :: 0 <= i < |jobs| ==> TasksNow(ended)[i] == Finish(old(TasksNow(jobs))[i])
    ensures LastFailureWins(Results(old(TasksNow(jobs))), overall)
    ensures var tasks := old(TasksNow(jobs));
      && (overall == OK <==> forall i :: 0 <= i < |tasks| ==> Finish(tasks[i]).result == Some(OK))
      && (forall i :: 0 <= i < |tasks| && Finish(tasks[i]).result != Some(OK)
                      && (forall j :: i < j < |tasks| ==> Finish(tasks[j]).result == Some(OK)) ==>
            Some(overall) == Finish(tasks[i]).result)
    ensures forall c <- CellsOf(jobs) :: Label(c.value) == old(Label(c.value)) && c.alive == old(c.alive)
  {
    hide DistinctCells, OnTheirWay, Label, TasksNow, LastFailureWins, Finish, Results;
    ghost var tasks := TasksNow(jobs);
    var running := Enqueue(jobs);
    assert |CellsOf(running)| == |jobs|;
    overall, ended := Collect(running, tasks);
    LastFailureMeans(tasks, overall);
  }

  lemma LastFailureMeans(tasks: seq<Task>, overall: Status)
    requires LastFailureWins(Results(tasks), overall)
    ensures overall == OK <==> forall i :: 0 <= i < |tasks| ==> Finish(tasks[i]).result == Some(OK)
    ensures forall i :: 0 <= i < |tasks| && Finish(tasks[i]).result != Some(OK)
                        && (forall j :: i < j < |tasks| ==> Finish(tasks[j]).result == Some(OK)) ==>
      Some(overall) == Finish(tasks[i]).result
  {
    hide Finish;
    var ss := Results(tasks);
    forall i | 0 <= i < |tasks|
      ensures Finish(tasks[i]).result == Some(ss[i]) && ss[i] in ss
    {
    }
  }

  lemma NoStatusYet()
    ensures LastFailureWins([], OK)
  {
  }

  // ---------------------------------------------------------------------------
  //  The tables of a database
  // ---------------------------------------------------------------------------

  /** The same tables but for what is in them. */
  ghost predicate SameLabels(ts: seq<NamedTable>, us: seq<NamedTable>) {
    |ts| == |us| && forall i :: 0 <= i < |ts| ==> Label(ts[i]) == Label(us[i])
  }

  /** The catalogue and its indexes know tables by their labels only. */
  lemma LabelsDecide(c: Catalogue, d: Catalogue, db: Database)
    requires SameLabels(c.tables, d.tables) && c.nextTableId == d.nextTableId
    requires CatalogueOk(c) && NamesIndexed(c.tables, db.index) && IdsIndexed(db.tables, c.tables, db.tableIndex)
    ensures CatalogueOk(d) && NamesIndexed(d.tables, db.index) && IdsIndexed(db.tables, d.tables, db.tableIndex)
  {
    hide Find, FindId;
    assert forall i :: 0 <= i < |c.tables| ==> Label(c.tables[i]) == Label(d.tables[i]);
    forall name: string
      ensures Find(d.tables, name) == Find(c.tables, name)
    {
    }
    forall id: nat
      ensures FindId(d.tables, id) == FindId(c.tables, id)
    {
    }
  }

  /** One job for each table of a database. */
  method ForAllTables(db: Database, jobs: seq<Job>) returns (status: Status)
    requires db.Valid() && CellsOf(jobs) == db.tables
    modifies db.tables
    ensures db.Valid() && |db.State().tables| == |jobs|
    ensures forall i :: 0 <= i < |jobs| ==>
      var t := old(db.State().tables[i]);
      db.State().tables[i] == t.(table := Finish(TaskOf(t, jobs[i])).table)
    ensures LastFailureWins(Results(old(TasksNow(jobs))), status)
  {
    hide NamesIndexed, IdsIndexed, CatalogueOk, Finish, LastFailureWins, Results, DistinctCells;
    ghost var was, tasks := db.State(), TasksNow(jobs);
    var ended;
    status, ended := RunParallel(jobs);
    ghost var now := db.State();
    forall i | 0 <= i < |jobs|
      ensures now.tables[i] == was.tables[i].(table := Finish(TaskOf(was.tables[i], jobs[i])).table)
    {
      assert CellsOf(ended)[i] == CellsOf(jobs)[i] == db.tables[i] && db.tables[i] in db.tables;
      assert tasks[i] == TaskOf(was.tables[i], jobs[i]) && TasksNow(ended)[i] == Finish(tasks[i]);
    }
    assert SameLabels(was.tables, now.tables);
    LabelsDecide(was, now, db);
  }

  method RebuildAllIndexes(db: Database) returns (status: Status)
    requires db.Valid()
    modifies db.tables
    ensures db.Valid() && status == OK
    ensures forall i :: 0 <= i < |db.tables| ==>
      var t := old(db.State().tables[i]);
      db.State().tables[i] == t.(table := t.table.(index := IndexOf(t.table.pages)))
    ensures old(forall t <- db.State().tables :: TableOk(t.schema, t.table)) ==> db.State() == old(db.State())
  {
    hide LastFailureWins, Finish, IndexOf, NamesIndexed, IdsIndexed, CatalogueOk, TableOk, Results;
    ghost var was := db.State();
    var cells := db.tables;
    var jobs := seq(|cells|, i requires 0 <= i < |cells| => Job(cells[i], [RebuildIndex], None));
    assert CellsOf(jobs) == cells;
    ghost var tasks := TasksNow(jobs);
    forall i | 0 <= i < |jobs|
      ensures Finish(TaskOf(was.tables[i], jobs[i])).table ==
        was.tables[i].table.(index := IndexOf(was.tables[i].table.pages))
      ensures Results(tasks)[i] == OK
      ensures TableOk(was.tables[i].schema, was.tables[i].table) ==>
        was.tables[i].table.(index := IndexOf(was.tables[i].table.pages)) == was.tables[i].table
    {
      RebuildTask(was.tables[i], jobs[i]);
      assert tasks[i] == TaskOf(was.tables[i], jobs[i]);
    }
    status := ForAllTables(db, jobs);
    AllOk(Results(tasks), status);
    if forall t <- was.tables :: TableOk(t.schema, t.table) {
      assert forall i :: 0 <= i < |was.tables| ==> was.tables[i] in was.tables;
      assert db.State().tables == was.tables;
    }
  }

  lemma RebuildTask(t: NamedTable, job: Job)
    requires job.todo == [RebuildIndex] && job.result == None
    ensures var done := Finish(TaskOf(t, job));
      done.result.value == OK && done.table == t.table.(index := IndexOf(t.table.pages))
    ensures TableOk(t.schema, t.table) ==> t.table.(index := IndexOf(t.table.pages)) == t.table
  {
    hide TableOk, IndexOf;
    var next := StepTask(TaskOf(t, job));
    assert [RebuildIndex][1..] == [];
    assert next == Task(t.schema, t.table.(index := IndexOf(t.table.pages)), [], None);
    if TableOk(t.schema, t.table) {
      RebuildChangesNothing(t.schema, t.table);
    }
  }

  lemma AllOk(ss: seq<Status>, overall: Status)
    requires LastFailureWins(ss, overall) && forall i :: 0 <= i < |ss| ==> ss[i] == OK
    ensures overall == OK
  {
  }

  // ---------------------------------------------------------------------------
  //  Loading tables in parallel
  // ---------------------------------------------------------------------------

  /** The file of a table: its parsed form, if it could be read. */
  predicate DefinedForm(form: Option<Json>) {
    form.Some? && form.value.Array? ==> DefinedEntries(form.value.elems)
  }

  /** Loading a table: the inserts of an import, or a failure to read or parse its file. */
  function LoadJob(cell: TableCell, form: Option<Json>): (job: Job)
    requires DefinedForm(form)
    ensures job.cell == cell
  {
    match form
    case None => Job(cell, [], Some(IO_ERROR))
    case Some(j) => if j.Array? then Job(cell, Inserts(j.elems), None) else Job(cell, [], Some(PARSE_ERROR))
  }

  /** What loading one table alone does to it. */
  function LoadResult(t: NamedTable, form: Option<Json>): (Status, TableVal)
    requires DefinedForm(form)
  {
    match form
    case None => (IO_ERROR, t.table)
    case Some(j) => if j.Array? then Imported(t.schema, t.table, j.elems) else (PARSE_ERROR, t.table)
  }

  function Inserts(js: seq<Json>): (ops: seq<Op>)
    requires DefinedEntries(js)
    ensures |ops| == |js| && forall i :: 0 <= i < |js| ==> ops[i] == InsertOf(js, i)
  {
    seq(|js|, i requires 0 <= i < |js| => InsertOf(js, i))
  }

  lemma {:induction false} LoadFrom(schema: seq<ColumnDef>, t: TableVal, js: seq<Json>, k: nat, u: TableVal)
    requires DefinedEntries(js) && k <= |js| && DefinedEntries(js[..k])
    requires Imported(schema, t, js[..k]) == (OK, u)
    ensures var done := Finish(Task(schema, u, Inserts(js)[k..], None));
      (done.result.value, done.table) == Imported(schema, t, js)
    decreases |js| - k
  {
    hide Exec, Imported, DefinedEntries, EntryRecord;
    var ops := Inserts(js);
    if k < |js| {
      ImportedOneMore(schema, t, js, k);
      var (status, next) := Imported(schema, t, js[..k + 1]);
      assert ops[k..][0] == ops[k] == InsertOf(js, k) && ops[k..][1..] == ops[k + 1..];
      if status == OK {
        LoadFrom(schema, t, js, k + 1, next);
      } else {
        RefusalEnds(schema, t, js, k + 1);
      }
    } else {
      assert js[..k] == js && ops[k..] == [];
    }
  }

  /** A load job by itself is an import. */
  lemma LoadJobImports(t: NamedTable, cell: TableCell, form: Option<Json>)
    requires DefinedForm(form)
    ensures var done := Finish(TaskOf(t, LoadJob(cell, form)));
      (done.result.value, done.table) == LoadResult(t, form)
  {
    hide DefinedEntries, Finish;
    var job := LoadJob(cell, form);
    if form.Some? && form.value.Array? {
      var js := form.value.elems;
      assert js[..0] == [];
      NoEntries(t.schema, t.table);
      assert Inserts(js)[0..] == Inserts(js);
      LoadFrom(t.schema, t.table, js, 0, t.table);
    } else {
      FinishedIsEnd(TaskOf(t, job));
    }
  }

  /** The statuses of loading every table alone. */
  function LoadStatuses(ts: seq<NamedTable>, forms: seq<Option<Json>>): (ss: seq<Status>)
    requires |ts| == |forms| && forall i :: 0 <= i < |forms| ==> DefinedForm(forms[i])
    ensures |ss| == |ts| && forall i :: 0 <= i < |ts| ==> ss[i] == LoadResult(ts[i], forms[i]).0
  {
    seq(|ts|, i requires 0 <= i < |ts| => LoadResult(ts[i], forms[i]).0)
  }

  /** Loads every table from its file: each ends as if it were loaded alone. */
  method LoadAllTables(db: Database, forms: seq<Option<Json>>) returns (status: Status)
    requires db.Valid() && |forms| == |db.tables|
    requires forall i :: 0 <= i < |forms| ==> DefinedForm(forms[i])
    modifies db.tables
    ensures db.Valid() && |db.State().tables| == |forms|
    ensures forall i :: 0 <= i < |forms| ==>
      var t := old(db.State().tables[i]);
      db.State().tables[i] == t.(table := LoadResult(t, forms[i]).1)
    ensures LastFailureWins(LoadStatuses(old(db.State().tables), forms), status)
  {
    hide LastFailureWins, Finish, NamesIndexed, IdsIndexed, CatalogueOk, Results, DefinedForm, LoadResult, LoadJob;
    ghost var was := db.State();
    var cells := db.tables;
    var jobs := seq(|cells|, i requires 0 <= i < |cells| => LoadJob(cells[i], forms[i]));
    assert CellsOf(jobs) == cells;
    ghost var tasks := TasksNow(jobs);
    forall i | 0 <= i < |jobs|
      ensures Finish(TaskOf(was.tables[i], jobs[i])).table == LoadResult(was.tables[i], forms[i]).1
      ensures Results(tasks)[i] == LoadResult(was.tables[i], forms[i]).0
    {
      LoadJobImports(was.tables[i], db.tables[i], forms[i]);
      assert tasks[i] == TaskOf(was.tables[i], jobs[i]);
    }
    status := ForAllTables(db, jobs);
    assert Results(tasks) == LoadStatuses(was.tables, forms);
  }
}
