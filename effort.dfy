/**
  Effort estimates of pmtk/model/effort.py over a work breakdown: an
  estimate overrides, otherwise a task's effort is the sum of its subtasks'.
  Man-hours are integers.
 */
module Effort {
  import opened Wrappers
  import opened Work

  /** The position of `t` in `order`. */
  ghost function IndexOf(order: seq<string>, t: string): (i: nat)
    requires t in order
    ensures i < |order| && order[i] == t
  {
    var i :| 0 <= i < |order| && order[i] == t; i
  }

  /** How many tasks were added from `t` on; it decreases from a task to its subtasks. */
  ghost function Rank(order: seq<string>, t: string): nat {
    if t in order then |order| - IndexOf(order, t) else 0
  }

  /** Subtasks rank below their parent. */
  lemma SubtaskRanksLower(tasks: map<string, Task>, order: seq<string>, t: string, s: string)
    requires Ranked(tasks, order) && t in tasks && s in tasks[t].subtaskIds
    ensures s in tasks && Rank(order, s) < Rank(order, t)
  {
    var i, j := IndexOf(order, t), IndexOf(order, s);
    assert order[j] in tasks[order[i]].subtaskIds;
  }

  /**
    `getTaskEffort(t)`: the estimate if there is one; otherwise, for a task
    of the breakdown, the sum over its subtasks; otherwise `KeyError`.
   */
  ghost function TaskEffort(tasks: map<string, Task>, est: map<string, int>, order: seq<string>, t: string): (r: Result<int, KeyError>)
    requires Ranked(tasks, order)
    ensures r.Ok? <==> t in est || t in tasks
    ensures r.Err? ==> r.error == KeyError(t)
    decreases Rank(order, t), 1, 0
  {
    if t in est then Ok(est[t])
    else if t !in tasks then Err(KeyError(t))
    else Ok(SubtaskSum(tasks, est, order, t, tasks[t].subtaskIds))
  }

  /** The sum of the efforts of the subtasks in `s` of task `t`. */
  ghost function SubtaskSum(tasks: map<string, Task>, est: map<string, int>, order: seq<string>, t: string, s: set<string>): int
    requires Ranked(tasks, order) && t in tasks && s <= tasks[t].subtaskIds
    decreases Rank(order, t), 0, |s|
  {
    if s == {} then 0
    else
      HasMember(s);
      var x :| x in s;
      SubtaskRanksLower(tasks, order, t, x);
      TaskEffort(tasks, est, order, x).value + SubtaskSum(tasks, est, order, t, s - {x})
  }

  /** A non-empty sum is some subtask's effort plus the sum of the others. */
  lemma SubtaskSumUnfold(tasks: map<string, Task>, est: map<string, int>, order: seq<string>, t: string, s: set<string>)
    requires Ranked(tasks, order) && t in tasks && s <= tasks[t].subtaskIds && s != {}
    ensures exists x :: x in s && x in tasks && TaskEffort(tasks, est, order, x).Ok? && SubtaskSum(tasks, est, order, t, s) == TaskEffort(tasks, est, order, x).value + SubtaskSum(tasks, est, order, t, s - {x})
  {
    HasMember(s);
  }

  /** The sum does not depend on which subtask is taken first. */
  lemma {:induction false} SubtaskSumSplit(tasks: map<string, Task>, est: map<string, int>, order: seq<string>, t: string, s: set<string>, y: string)
    requires Ranked(tasks, order) && t in tasks && s <= tasks[t].subtaskIds && y in s
    ensures y in tasks && TaskEffort(tasks, est, order, y).Ok?
    ensures SubtaskSum(tasks, est, order, t, s) ==
      TaskEffort(tasks, est, order, y).value + SubtaskSum(tasks, est, order, t, s - {y})
    decreases |s|
  {
    SubtaskRanksLower(tasks, order, t, y);
    SubtaskSumUnfold(tasks, est, order, t, s);
    var x :| x in s && x in tasks && TaskEffort(tasks, est, order, x).Ok? && SubtaskSum(tasks, est, order, t, s) ==
      TaskEffort(tasks, est, order, x).value + SubtaskSum(tasks, est, order, t, s - {x});
    if x != y {
      assert s - {x} - {y} == s - {y} - {x};
      SubtaskSumSplit(tasks, est, order, t, s - {x}, y);
      SubtaskSumSplit(tasks, est, order, t, s - {y}, x);
    }
  }

  /** A task without estimate and without subtasks has effort 0. */
  lemma LeafEffort(tasks: map<string, Task>, est: map<string, int>, order: seq<string>, t: string)
    requires Ranked(tasks, order) && t in tasks && t !in est && tasks[t].subtaskIds == {}
    ensures TaskEffort(tasks, est, order, t) == Ok(0)
  {
  }

  /** `t2` is `tasks` with the leaf `id` added under `parent`. */
  ghost predicate AddsLeaf(tasks: map<string, Task>, t2: map<string, Task>, id: string, parent: string) {
    && id !in tasks && parent in tasks && id in t2
    && t2.Keys == tasks.Keys + {id}
    && t2[id].subtaskIds == {}
    && t2[parent].subtaskIds == tasks[parent].subtaskIds + {id}
    && forall k :: k in tasks && k != parent ==> t2[k].subtaskIds == tasks[k].subtaskIds
  }

  /** Adding a leaf without estimate keeps the effort of every other task. */
  lemma {:induction false} LeafKeepsEffort(tasks: map<string, Task>, order: seq<string>, t2: map<string, Task>, o2: seq<string>,
                                           est: map<string, int>, id: string, parent: string, t: string)
    requires Ranked(tasks, order) && Ranked(t2, o2) && AddsLeaf(tasks, t2, id, parent)
    requires id !in est && t != id
    ensures TaskEffort(t2, est, o2, t) == TaskEffort(tasks, est, order, t)
    decreases Rank(order, t), 1, 0
  {
    if t !in est && t in tasks {
      var s := tasks[t].subtaskIds;
      LeafKeepsSum(tasks, order, t2, o2, est, id, parent, t, s);
      if t == parent {
        SubtaskSumSplit(t2, est, o2, t, s + {id}, id);
        assert s + {id} - {id} == s;
        LeafEffort(t2, est, o2, id);
      }
    }
  }

  /** Proof helper: equal parts make equal sums. */
  lemma SameSum(x: int, a: int, b: int, y: int, c: int, d: int)
    requires x == a + b && y == c + d && a == c && b == d
    ensures x == y
  {
  }

  /** The sums over old subtasks agree before and after adding a leaf. */
  lemma {:induction false} LeafKeepsSum(tasks: map<string, Task>, order: seq<string>, t2: map<string, Task>, o2: seq<string>,
                                        est: map<string, int>, id: string, parent: string, t: string, s: set<string>)
    requires Ranked(tasks, order) && Ranked(t2, o2) && AddsLeaf(tasks, t2, id, parent)
    requires id !in est && t in tasks && s <= tasks[t].subtaskIds
    ensures s <= t2[t].subtaskIds
    ensures SubtaskSum(t2, est, o2, t, s) == SubtaskSum(tasks, est, order, t, s)
    decreases Rank(order, t), 0, |s|
  {
    if s != {} {
      SubtaskSumUnfold(tasks, est, order, t, s);
      var x :| x in s && x in tasks && TaskEffort(tasks, est, order, x).Ok? && SubtaskSum(tasks, est, order, t, s) == TaskEffort(tasks, est, order, x).value + SubtaskSum(tasks, est, order, t, s - {x});
      SubtaskRanksLower(tasks, order, t, x);
      SubtaskSumSplit(t2, est, o2, t, s, x);
      LeafKeepsEffort(tasks, order, t2, o2, est, id, parent, x);
      LeafKeepsSum(tasks, order, t2, o2, est, id, parent, t, s - {x});
      var e1, e2 := TaskEffort(tasks, est, order, x).value, TaskEffort(t2, est, o2, x).value;
      var r1, r2 := SubtaskSum(tasks, est, order, t, s - {x}), SubtaskSum(t2, est, o2, t, s - {x});
      SameSum(SubtaskSum(t2, est, o2, t, s), e2, r2, SubtaskSum(tasks, est, order, t, s), e1, r1);
    } else {
      assert SubtaskSum(t2, est, o2, t, s) == 0 == SubtaskSum(tasks, est, order, t, s);
    }
  }

  /**
    The effort does not depend on the order the tasks were added in: any
    two orders that rank the same tasks give the same efforts.
   */
  lemma {:induction false} OrderKeepsEffort(tasks: map<string, Task>, est: map<string, int>, o1: seq<string>, o2: seq<string>, t: string)
    requires Ranked(tasks, o1) && Ranked(tasks, o2)
    ensures TaskEffort(tasks, est, o1, t) == TaskEffort(tasks, est, o2, t)
    decreases Rank(o1, t), 1, 0
  {
    if t !in est && t in tasks {
      OrderKeepsSum(tasks, est, o1, o2, t, tasks[t].subtaskIds);
    }
  }

  /** The sums over subtasks agree under any two orders. */
  lemma {:induction false} OrderKeepsSum(tasks: map<string, Task>, est: map<string, int>, o1: seq<string>, o2: seq<string>,
                                         t: string, s: set<string>)
    requires Ranked(tasks, o1) && Ranked(tasks, o2) && t in tasks && s <= tasks[t].subtaskIds
    ensures SubtaskSum(tasks, est, o1, t, s) == SubtaskSum(tasks, est, o2, t, s)
    decreases Rank(o1, t), 0, |s|
  {
    if s != {} {
      var x := Pick(s);
      SubtaskRanksLower(tasks, o1, t, x);
      SubtaskSumSplit(tasks, est, o1, t, s, x);
      SubtaskSumSplit(tasks, est, o2, t, s, x);
      OrderKeepsEffort(tasks, est, o1, o2, x);
      OrderKeepsSum(tasks, est, o1, o2, t, s - {x});
    }
  }

  /**
    Adding a task without estimate changes the effort of no task already
    there: the new task is a leaf and adds 0 to its parent's sum.
   */
  lemma AddTaskKeepsEffort(tasks: map<string, Task>, est: map<string, int>, order: seq<string>,
                           id: string, name: Option<string>, parent: string, t: string)
    requires WellFormed(tasks, order) && id !in tasks && parent in tasks && id !in est
    requires t != id
    ensures WellFormed(WithTask(tasks, id, name, parent), order + [id])
    ensures TaskEffort(WithTask(tasks, id, name, parent), est, order + [id], t) == TaskEffort(tasks, est, order, t)
  {
    AddTaskKeepsWellFormed(tasks, order, id, name, parent);
    WithTaskAddsLeaf(tasks, id, name, parent);
    LeafKeepsEffort(tasks, order, WithTask(tasks, id, name, parent), order + [id], est, id, parent, t);
  }

  /** A successful `addTask` adds a leaf under its parent. */
  lemma WithTaskAddsLeaf(tasks: map<string, Task>, id: string, name: Option<string>, parent: string)
    requires id !in tasks && parent in tasks
    ensures AddsLeaf(tasks, WithTask(tasks, id, name, parent), id, parent)
  {
  }

  /** `EffortEstimatesMixin`: estimates by task id, over a work breakdown. */
  class EffortEstimates {
    const breakdown: WorkBreakdown
    var estimates: map<string, int>

    /** `__init__`: no estimates. */
    constructor (breakdown: WorkBreakdown)
      ensures this.breakdown == breakdown && estimates == map[]
    {
      this.breakdown := breakdown;
      estimates := map[];
    }

    /** `addEstimate(task_id, man_hours)`: sets or replaces the estimate of that id only. */
    method AddEstimate(taskId: string, manHours: int)
      modifies this
      ensures estimates == old(estimates)[taskId := manHours]
    {
      estimates := estimates[taskId := manHours];
    }

    /**
      `getTaskEffort(task_id)`: the estimate wins; otherwise the efforts of
      the subtasks are added up; an id with neither is `KeyError`.
     */
    method GetTaskEffort(taskId: string) returns (r: Result<int, KeyError>)
      requires breakdown.Valid()
      ensures r == TaskEffort(breakdown.tasks, estimates, breakdown.order, taskId)
      ensures taskId in estimates ==> r == Ok(estimates[taskId])
      decreases Rank(breakdown.order, taskId)
    {
      if taskId in estimates {
        return Ok(estimates[taskId]);
      }
      var ids := breakdown.GetSubtaskIds(taskId);
      if ids.Err? {
        return Err(ids.error);
      }
      ghost var tasks, order := breakdown.tasks, breakdown.order;
      var rest := ids.value;
      var total := 0;
      while rest != {}
        invariant rest <= tasks[taskId].subtaskIds
        invariant total + SubtaskSum(tasks, estimates, order, taskId, rest) ==
          SubtaskSum(tasks, estimates, order, taskId, tasks[taskId].subtaskIds)
        decreases |rest|
      {
        ghost var w := Pick(rest);
        var s :| s in rest;
        SubtaskSumSplit(tasks, estimates, order, taskId, rest, s);
        SubtaskRanksLower(tasks, order, taskId, s);
        var e := GetTaskEffort(s);
        total := total + e.value;
        rest := rest - {s};
      }
      r := Ok(total);
    }

    /** `getTotalEffort()`: the effort of the root task, which always exists. */
    method GetTotalEffort() returns (total: int)
      requires breakdown.Valid()
      ensures TaskEffort(breakdown.tasks, estimates, breakdown.order, RootTaskId) == Ok(total)
    {
      var root := breakdown.GetBreakdownRoot();
      var r := GetTaskEffort(root.id);
      total := r.value;
    }
  }

  /**
    Through the classes: an `addTask` without estimate leaves what
    `getTaskEffort` reports for every other task as it was, whether the
    task is added or refused.
   */
  method EffortAcrossAddTask(e: EffortEstimates, id: string, name: Option<string>, parent: string, t: string)
    returns (before: Result<int, KeyError>, after: Result<int, KeyError>)
    requires e.breakdown.Valid() && id !in e.estimates && t != id
    modifies e.breakdown
    ensures e.breakdown.Valid()
    ensures before == after
  {
    before := e.GetTaskEffort(t);
    ghost var tasks, order := e.breakdown.tasks, e.breakdown.order;
    var out := e.breakdown.AddTask(id, name, parent);
    if out.Pass? {
      AddTaskKeepsEffort(tasks, e.estimates, order, id, name, parent, t);
    }
    after := e.GetTaskEffort(t);
  }

  /** The first part of the effort test: tasks `a` and `b` under the root. */
  method TwoTasks() returns (b: WorkBreakdown)
    ensures fresh(b) && b.Valid()
    ensures b.tasks.Keys == {RootTaskId, "a", "b"}
    ensures b.tasks[RootTaskId].subtaskIds == {"a", "b"} && b.tasks["b"].subtaskIds == {}
  {
    b := new WorkBreakdown();
    assert b.tasks.Keys == {RootTaskId};
    AddLeaf(b, "a", RootTaskId);
    AddLeaf(b, "b", RootTaskId);
  }

  /** The second part of the effort test: tasks `ba` and `bb` under `b`. */
  method SplitB(b: WorkBreakdown)
    requires b.Valid() && b.tasks.Keys == {RootTaskId, "a", "b"}
    requires b.tasks[RootTaskId].subtaskIds == {"a", "b"} && b.tasks["b"].subtaskIds == {}
    modifies b
    ensures b.Valid()
    ensures b.tasks[RootTaskId].subtaskIds == {"a", "b"} && b.tasks["b"].subtaskIds == {"ba", "bb"}
  {
    AddLeaf(b, "ba", "b");
    AddLeaf(b, "bb", "b");
  }

  /** `addTask(id, parent=parent)` for a new id under an existing parent: the leaf is added. */
  method AddLeaf(b: WorkBreakdown, id: string, parent: string)
    requires b.Valid() && id !in b.tasks && parent in b.tasks
    modifies b
    ensures b.Valid() && b.tasks == WithTask(old(b.tasks), id, None, parent)
  {
    var _ := b.AddTask(id, parent := parent);
  }

  /**
    The effort test: tasks `a` and `b` under the root, then `ba` and `bb`
    under `b`; with `a` estimated at 5 the total is 5, and with `ba` at 3
    and `bb` at 2 as well it is 10.
   */
  method SimpleTaskExample() returns (first: int, second: int)
    ensures first == 5 && second == 10
  {
    var b := TwoTasks();
    var e := new EffortEstimates(b);
    e.AddEstimate("a", 5);
    first := e.GetTotalEffort();
    FirstTotal(b.tasks, e.estimates, b.order);
    SplitB(b);
    e.AddEstimate("ba", 3);
    e.AddEstimate("bb", 2);
    second := e.GetTotalEffort();
    SecondTotal(b.tasks, e.estimates, b.order);
  }

  /** With only `a` estimated, at 5, the root's effort is 5: `b` is a leaf without estimate. */
  lemma FirstTotal(tasks: map<string, Task>, est: map<string, int>, order: seq<string>)
    requires Ranked(tasks, order) && tasks.Keys == {RootTaskId, "a", "b"}
    requires tasks[RootTaskId].subtaskIds == {"a", "b"} && tasks["b"].subtaskIds == {}
    requires est == map["a" := 5]
    ensures TaskEffort(tasks, est, order, RootTaskId) == Ok(5)
  {
    TwoSubtasks(tasks, est, order, RootTaskId, "a", "b");
    LeafEffort(tasks, est, order, "b");
  }

  /** With `a` at 5, `ba` at 3 and `bb` at 2, the root's effort is 10. */
  lemma SecondTotal(tasks: map<string, Task>, est: map<string, int>, order: seq<string>)
    requires Ranked(tasks, order) && RootTaskId in tasks && "b" in tasks
    requires tasks[RootTaskId].subtaskIds == {"a", "b"} && tasks["b"].subtaskIds == {"ba", "bb"}
    requires est == map["a" := 5, "ba" := 3, "bb" := 2]
    ensures TaskEffort(tasks, est, order, RootTaskId) == Ok(10)
  {
    TwoSubtasks(tasks, est, order, RootTaskId, "a", "b");
    TwoSubtasks(tasks, est, order, "b", "ba", "bb");
  }

  /** Without estimate, a task with two subtasks has the sum of their efforts. */
  lemma TwoSubtasks(tasks: map<string, Task>, est: map<string, int>, order: seq<string>, t: string, x: string, y: string)
    requires Ranked(tasks, order) && t in tasks && t !in est
    requires tasks[t].subtaskIds == {x, y} && x != y
    ensures x in tasks && y in tasks
    ensures TaskEffort(tasks, est, order, t) ==
      Ok(TaskEffort(tasks, est, order, x).value + TaskEffort(tasks, est, order, y).value)
  {
    var both := tasks[t].subtaskIds;
    SubtaskSumSplit(tasks, est, order, t, both, x);
    assert both - {x} == {y};
    SubtaskSumSplit(tasks, est, order, t, {y}, y);
    assert {y} - {y} == {};
    var ex, ey := TaskEffort(tasks, est, order, x).value, TaskEffort(tasks, est, order, y).value;
    SameSum(SubtaskSum(tasks, est, order, t, both), ex, SubtaskSum(tasks, est, order, t, {y}), ex + ey, ex, ey);
  }
}
