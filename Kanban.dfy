/** The task board of `useKanban`: a list of tasks in three columns, with at most one task
    in progress at any time.

    Task ids and timestamps come from `Date.now()` and `Math.random()` in the composable;
    here they are parameters. */
module Kanban {
  import opened Wrappers
  import Text
  import Seqs

  datatype Status = Todo | InProgress | Done

  datatype Task = Task(
    id: string,
    title: string,
    status: Status,
    pomodorosCompleted: nat,
    createdAt: int,
    completedAt: Option<int>)

  predicate IsTodo(t: Task) { t.status == Todo }
  predicate IsInProgress(t: Task) { t.status == InProgress }
  predicate IsDone(t: Task) { t.status == Done }
  predicate IsNotDone(t: Task) { t.status != Done }

  /** No two tasks share an id. */
  predicate DistinctIds(tasks: seq<Task>) {
    forall i, j :: 0 <= i < |tasks| && 0 <= j < |tasks| && tasks[i].id == tasks[j].id ==> i == j
  }

  /** At most one task is in progress. */
  predicate AtMostOneInProgress(tasks: seq<Task>) {
    forall i, j :: 0 <= i < |tasks| && 0 <= j < |tasks| && IsInProgress(tasks[i]) && IsInProgress(tasks[j]) ==> i == j
  }

  /** `tasks.find(t => t.id === taskId)`, as an index. */
  function IndexOfId(tasks: seq<Task>, id: string): (r: Option<nat>)
    ensures r.Some? <==> exists k :: 0 <= k < |tasks| && tasks[k].id == id
    ensures r.Some? ==> r.value < |tasks| && tasks[r.value].id == id
    ensures r.Some? ==> forall j :: 0 <= j < r.value ==> tasks[j].id != id
  {
    Seqs.FindIndex(tasks, (t: Task) => t.id == id)
  }

  /** `tasks.find(t => t.status === 'in-progress')`, as an index. */
  function IndexInProgress(tasks: seq<Task>): (r: Option<nat>)
    ensures r.None? <==> forall k :: 0 <= k < |tasks| ==> !IsInProgress(tasks[k])
    ensures r.Some? ==> r.value < |tasks| && IsInProgress(tasks[r.value])
    ensures r.Some? && AtMostOneInProgress(tasks) ==>
      forall k :: 0 <= k < |tasks| && IsInProgress(tasks[k]) ==> k == r.value
  {
    Seqs.FindIndex(tasks, IsInProgress)
  }

  /** `activeTask`: the task in progress, or `null` when there is none. */
  function ActiveTask(tasks: seq<Task>): (r: Option<Task>)
    ensures r.None? <==> forall k :: 0 <= k < |tasks| ==> !IsInProgress(tasks[k])
    ensures r.Some? ==> r.value in tasks && IsInProgress(r.value)
  {
    match IndexInProgress(tasks)
    case None => None
    case Some(i) => Some(tasks[i])
  }

  /** `todoTasks`, `inProgressTasks` and `doneTasks`. */
  function TodoTasks(tasks: seq<Task>): (r: seq<Task>)
    ensures |r| <= |tasks| && forall t :: t in r <==> t in tasks && IsTodo(t)
  {
    Seqs.FilterContains(tasks, IsTodo);
    Seqs.Filter(tasks, IsTodo)
  }

  function InProgressTasks(tasks: seq<Task>): (r: seq<Task>)
    ensures |r| <= |tasks| && forall t :: t in r <==> t in tasks && IsInProgress(t)
  {
    Seqs.FilterContains(tasks, IsInProgress);
    Seqs.Filter(tasks, IsInProgress)
  }

  function DoneTasks(tasks: seq<Task>): (r: seq<Task>)
    ensures |r| <= |tasks| && forall t :: t in r <==> t in tasks && IsDone(t)
  {
    Seqs.FilterContains(tasks, IsDone);
    Seqs.Filter(tasks, IsDone)
  }

  /** The three columns partition the board: every task is in exactly one of them, as often
      as it is on the board. */
  lemma {:induction false} ViewsPartition(tasks: seq<Task>)
    ensures multiset(TodoTasks(tasks)) + multiset(InProgressTasks(tasks)) + multiset(DoneTasks(tasks))
      == multiset(tasks)
    ensures |TodoTasks(tasks)| + |InProgressTasks(tasks)| + |DoneTasks(tasks)| == |tasks|
  {
    if tasks != [] {
      var t, rest := tasks[0], tasks[1..];
      ViewsPartition(rest);
      ViewsStep(t, rest);
      assert tasks == [t] + rest;
      assert multiset(tasks) == multiset{t} + multiset(rest);
    }
    var a, b, c := TodoTasks(tasks), InProgressTasks(tasks), DoneTasks(tasks);
    assert |multiset(a) + multiset(b) + multiset(c)| == |a| + |b| + |c|;
  }

  /** A task in front lands in exactly one column. */
  lemma ViewsStep(t: Task, rest: seq<Task>)
    ensures multiset(TodoTasks([t] + rest)) + multiset(InProgressTasks([t] + rest)) + multiset(DoneTasks([t] + rest))
      == multiset{t} + (multiset(TodoTasks(rest)) + multiset(InProgressTasks(rest)) + multiset(DoneTasks(rest)))
  {
    ColumnStep(t, rest, IsTodo);
    ColumnStep(t, rest, IsInProgress);
    ColumnStep(t, rest, IsDone);
  }

  /** A task in front is counted once in a column it belongs to, and not at all otherwise. */
  lemma ColumnStep(t: Task, rest: seq<Task>, p: Task -> bool)
    ensures multiset(Seqs.Filter([t] + rest, p))
      == (if p(t) then multiset{t} else multiset{}) + multiset(Seqs.Filter(rest, p))
  {
    Seqs.FilterCons(t, rest, p);
    if p(t) {
      assert multiset([t] + Seqs.Filter(rest, p)) == multiset{t} + multiset(Seqs.Filter(rest, p));
    }
  }

  /** With the board's invariant, the in-progress column holds at most one task, and holds
      one exactly when there is an active task. */
  lemma {:induction false} InProgressColumn(tasks: seq<Task>)
    requires AtMostOneInProgress(tasks)
    ensures |InProgressTasks(tasks)| <= 1
    ensures |InProgressTasks(tasks)| == 1 <==> ActiveTask(tasks).Some?
  {
    if tasks != [] {
      var rest := tasks[1..];
      assert AtMostOneInProgress(rest) by {
        forall i, j | 0 <= i < |rest| && 0 <= j < |rest| && IsInProgress(rest[i]) && IsInProgress(rest[j])
          ensures i == j
        {
          assert tasks[i + 1] == rest[i] && tasks[j + 1] == rest[j];
        }
      }
      InProgressColumn(rest);
      if IsInProgress(tasks[0]) {
        forall k | 0 <= k < |rest| ensures !IsInProgress(rest[k]) {
          assert tasks[k + 1] == rest[k];
        }
        NoneMatch(rest);
      } else {
        forall k | 0 <= k < |rest| && IsInProgress(rest[k]) ensures IsInProgress(tasks[k + 1]) {
          assert tasks[k + 1] == rest[k];
        }
      }
    }
  }

  lemma NoneMatch(tasks: seq<Task>)
    requires forall k :: 0 <= k < |tasks| ==> !IsInProgress(tasks[k])
    ensures InProgressTasks(tasks) == []
  {
    if tasks != [] {
      NoneMatch(tasks[1..]);
    }
  }

  /** Dropping tasks keeps ids distinct and keeps at most one task in progress. */
  lemma {:induction false} FilterKeepsInvariant(tasks: seq<Task>, p: Task -> bool)
    requires DistinctIds(tasks) && AtMostOneInProgress(tasks)
    ensures DistinctIds(Seqs.Filter(tasks, p)) && AtMostOneInProgress(Seqs.Filter(tasks, p))
  {
    if tasks != [] {
      var rest := tasks[1..];
      assert DistinctIds(rest) && AtMostOneInProgress(rest) by {
        forall i, j | 0 <= i < |rest| && 0 <= j < |rest|
          ensures rest[i].id == rest[j].id ==> i == j
          ensures IsInProgress(rest[i]) && IsInProgress(rest[j]) ==> i == j
        {
          assert tasks[i + 1] == rest[i] && tasks[j + 1] == rest[j];
        }
      }
      FilterKeepsInvariant(rest, p);
      var fr := Seqs.Filter(rest, p);
      if p(tasks[0]) {
        var r := [tasks[0]] + fr;
        assert Seqs.Filter(tasks, p) == r;
        forall k | 0 <= k < |fr|
          ensures fr[k].id != tasks[0].id
          ensures IsInProgress(tasks[0]) ==> !IsInProgress(fr[k])
        {
          Seqs.FilterMembers(rest, p);
          assert fr[k] in rest;
          var m :| 0 <= m < |rest| && rest[m] == fr[k];
          assert tasks[m + 1] == fr[k];
        }
        assert forall k :: 0 < k < |r| ==> r[k] == fr[k - 1];
      } else {
        assert Seqs.Filter(tasks, p) == fr;
      }
    }
  }

  /** The board after the task at index `i` moves to `newStatus` at time `now`: it takes the
      new status, with a completion time exactly when it is done; when it moves to in progress,
      any other in-progress task goes back to to-do. Every other task, and the order, stay. */
  function Moved(tasks: seq<Task>, i: nat, newStatus: Status, now: int): (r: seq<Task>)
    requires i < |tasks|
    ensures |r| == |tasks|
    ensures forall k :: 0 <= k < |r| ==> r[k].id == tasks[k].id
    ensures r[i].status == newStatus && (r[i].completedAt.Some? <==> newStatus == Done)
    ensures r[i] == tasks[i].(status := newStatus, completedAt := if newStatus == Done then Some(now) else None)
    ensures forall k :: 0 <= k < |r| && k != i && r[k] != tasks[k] ==>
      newStatus == InProgress && IsInProgress(tasks[k]) && r[k] == tasks[k].(status := Todo)
  {
    seq(|tasks|, k requires 0 <= k < |tasks| =>
      if k == i then
        tasks[i].(status := newStatus, completedAt := if newStatus == Done then Some(now) else None)
      else if newStatus == InProgress && IsInProgress(tasks[k]) then
        tasks[k].(status := Todo)
      else
        tasks[k])
  }

  /** Moving a task keeps every id and leaves at most one task in progress: the moved task
      when it went to in progress, the previous one (if any) otherwise. */
  lemma MovedKeepsInvariant(tasks: seq<Task>, i: nat, newStatus: Status, now: int)
    requires i < |tasks| && DistinctIds(tasks) && AtMostOneInProgress(tasks)
    ensures DistinctIds(Moved(tasks, i, newStatus, now))
    ensures AtMostOneInProgress(Moved(tasks, i, newStatus, now))
    ensures newStatus == InProgress ==>
      forall k :: 0 <= k < |tasks| && IsInProgress(Moved(tasks, i, newStatus, now)[k]) ==> k == i
  {
    var r := Moved(tasks, i, newStatus, now);
    assert forall k :: 0 <= k < |r| ==> r[k].id == tasks[k].id;
    assert forall k :: 0 <= k < |r| && k != i && IsInProgress(r[k]) ==> IsInProgress(tasks[k]);
  }

  /** The board: `state.value.tasks`, changed in place by the actions. */
  class Board {
    var tasks: seq<Task>

    ghost predicate Valid()
      reads this
    {
      DistinctIds(tasks) && AtMostOneInProgress(tasks)
    }

    /** `useKanban()` on the default state: an empty board. */
    constructor ()
      ensures Valid() && tasks == []
    {
      tasks := [];
    }

    /** `addTask`: a title that is blank once trimmed is ignored; otherwise one new to-do task
        with the trimmed title is appended. `id` is the freshly generated id. */
    method AddTask(title: string, id: string, now: int)
      requires Valid()
      requires forall k :: 0 <= k < |tasks| ==> tasks[k].id != id
      modifies this
      ensures Valid()
      ensures Text.Trim(title, Text.JsWhitespace) == [] ==> tasks == old(tasks)
      ensures Text.Trim(title, Text.JsWhitespace) != [] ==>
        tasks == old(tasks) + [Task(id, Text.Trim(title, Text.JsWhitespace), Todo, 0, now, None)]
    {
      var trimmed := Text.Trim(title, Text.JsWhitespace);
      if trimmed == [] {
        return;
      }
      var newTask := Task(id, trimmed, Todo, 0, now, None);
      tasks := tasks + [newTask];
    }

    /** `moveTask`: an unknown id changes nothing; otherwise the first task with that id moves
        to `newStatus`, as `Moved` describes. */
    method MoveTask(id: string, newStatus: Status, now: int)
      requires Valid()
      modifies this
      ensures Valid()
      ensures IndexOfId(old(tasks), id).None? ==> tasks == old(tasks)
      ensures IndexOfId(old(tasks), id).Some? ==>
        tasks == Moved(old(tasks), IndexOfId(old(tasks), id).value, newStatus, now)
    {
      var found := IndexOfId(tasks, id);
      if found.None? {
        return;
      }
      var i := found.value;
      ghost var after := Moved(tasks, i, newStatus, now);
      MovedKeepsInvariant(tasks, i, newStatus, now);
      if newStatus == InProgress {
        var current := IndexInProgress(tasks);
        if current.Some? && tasks[current.value].id != id {
          var c := current.value;
          tasks := tasks[c := tasks[c].(status := Todo)];
        }
      }
      tasks := tasks[i := tasks[i].(status := newStatus)];
      if newStatus == Done {
        tasks := tasks[i := tasks[i].(completedAt := Some(now))];
      } else {
        tasks := tasks[i := tasks[i].(completedAt := None)];
      }
      assert forall k :: 0 <= k < |tasks| ==> tasks[k] == after[k];
      assert tasks == after;
    }

    /** `deleteTask`: removes the first task with that id, keeping the others in order; an
        unknown id changes nothing. */
    method DeleteTask(id: string)
      requires Valid()
      modifies this
      ensures Valid()
      ensures IndexOfId(old(tasks), id).None? ==> tasks == old(tasks)
      ensures IndexOfId(old(tasks), id).Some? ==>
        var i := IndexOfId(old(tasks), id).value;
        tasks == old(tasks)[..i] + old(tasks)[i + 1..]
    {
      var found := IndexOfId(tasks, id);
      if found.Some? {
        var i := found.value;
        ghost var before := tasks;
        tasks := tasks[..i] + tasks[i + 1..];
        assert forall k :: 0 <= k < |tasks| ==> tasks[k] == before[if k < i then k else k + 1];
      }
    }

    /** `incrementActiveTaskPomodoros`: one more pomodoro on the task in progress, if any;
        nothing else changes. */
    method IncrementActiveTaskPomodoros()
      requires Valid()
      modifies this
      ensures Valid()
      ensures ActiveTask(old(tasks)).None? ==> tasks == old(tasks)
      ensures ActiveTask(old(tasks)).Some? ==>
        var j := IndexInProgress(old(tasks)).value;
        tasks == old(tasks)[j := old(tasks)[j].(pomodorosCompleted := old(tasks)[j].pomodorosCompleted + 1)]
    {
      var found := IndexInProgress(tasks);
      if found.Some? {
        var j := found.value;
        tasks := tasks[j := tasks[j].(pomodorosCompleted := tasks[j].pomodorosCompleted + 1)];
      }
    }

    /** `clearDoneTasks`: keeps exactly the tasks that are not done, in order. */
    method ClearDoneTasks()
      requires Valid()
      modifies this
      ensures Valid()
      ensures tasks == Seqs.Filter(old(tasks), IsNotDone)
    {
      FilterKeepsInvariant(tasks, IsNotDone);
      tasks := Seqs.Filter(tasks, IsNotDone);
    }

    /** `clearAllTasks`. */
    method ClearAllTasks()
      modifies this
      ensures Valid() && tasks == []
    {
      tasks := [];
    }
  }
}
