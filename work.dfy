/**
  The work breakdown of pmtk/model/work.py: tasks by id, each with the set of
  its subtask ids, under a root task `MAIN`.
 */
module Work {
  import opened Wrappers

  const RootTaskId := "MAIN"
  const RootTaskName := "Main"

  /** A task: id, title, and the ids of its direct subtasks. */
  datatype Task = Task(id: string, title: string, subtaskIds: set<string>)

  /** The two `ValueError`s of `addTask`. */
  datatype TaskError = DuplicateTaskId(id: string) | ParentNotFound(parent: string)

  /**
    The text of the `ValueError` of `addTask`, as the source formats it: the
    missing-parent message is filled with the new task's id.
   */
  function MessageAsWritten(id: string, e: TaskError): string {
    match e
    case DuplicateTaskId(d) => "Duplicate task id: " + d
    case ParentNotFound(_) => "Parent task id (" + id + ") does not exist"
  }

  /** The text of the `ValueError` of `addTask`, naming the missing parent. */
  function Message(e: TaskError): string {
    match e
    case DuplicateTaskId(d) => "Duplicate task id: " + d
    case ParentNotFound(p) => "Parent task id (" + p + ") does not exist"
  }

  /** As written, two different missing parents give the same message. */
  lemma MessageAsWrittenHidesParent()
    ensures MessageAsWritten("x", ParentNotFound("y")) == MessageAsWritten("x", ParentNotFound("z"))
  {
  }

  /** Corrected, the message tells the missing parent apart: different parents, different messages. */
  lemma MessageNamesParent(p1: string, p2: string)
    ensures Message(ParentNotFound(p1)) == Message(ParentNotFound(p2)) <==> p1 == p2
  {
    var a, b := "Parent task id (", ") does not exist";
    var m1, m2 := Message(ParentNotFound(p1)), Message(ParentNotFound(p2));
    if m1 == m2 {
      assert m1 == a + p1 + b && m2 == a + p2 + b;
      assert |p1| == |p2|;
      assert m1[|a|..|a| + |p1|] == p1;
      assert m2[|a|..|a| + |p2|] == p2;
    }
  }

  /**
    The invariant of the breakdown. `order` is the order in which the tasks
    were added; it is not stored by the source and serves to state that the
    subtask relation is acyclic: a subtask was always added after its parent.
   */
  ghost predicate WellFormed(tasks: map<string, Task>, order: seq<string>) {
    && |order| >= 1 && order[0] == RootTaskId && Distinct(order)
    && Ranked(tasks, order)
    && tasks[RootTaskId].title == RootTaskName
    && (forall t :: t in tasks ==> tasks[t].id == t)
    // no task is the subtask of two tasks
    && (forall p, q, s :: p in tasks && q in tasks && s in tasks[p].subtaskIds && s in tasks[q].subtaskIds ==> p == q)
    // every task but the root is someone's subtask
    && (forall s :: s in tasks && s != RootTaskId ==> exists p :: p in tasks && s in tasks[p].subtaskIds)
  }

  /**
    The part of the invariant that sums of efforts rely on: `order` lists the
    tasks, every subtask id names a task, and a subtask comes after its parent.
   */
  ghost predicate Ranked(tasks: map<string, Task>, order: seq<string>) {
    && (forall t :: t in tasks <==> t in order)
    && (forall t, s :: t in tasks && s in tasks[t].subtaskIds ==> s in tasks)
    && (forall i, j :: 0 <= i < |order| && 0 <= j < |order| && order[j] in tasks[order[i]].subtaskIds ==> i < j)
  }

  /** The tasks of a fresh breakdown: the root alone. */
  function Initial(): map<string, Task> {
    map[RootTaskId := Task(RootTaskId, RootTaskName, {})]
  }

  /** The title `addTask` gives: the name, or the id when the name is `None`. */
  function TaskTitle(id: string, name: Option<string>): string {
    if name.Some? then name.value else id
  }

  /** The tasks after `addTask(id, name, parent)` succeeds. */
  function WithTask(tasks: map<string, Task>, id: string, name: Option<string>, parent: string): (t2: map<string, Task>)
    requires parent in tasks && id != parent
    ensures t2.Keys == tasks.Keys + {id}
    ensures t2[id] == Task(id, TaskTitle(id, name), {})
    ensures t2[parent].subtaskIds == tasks[parent].subtaskIds + {id}
    ensures t2[parent].id == tasks[parent].id && t2[parent].title == tasks[parent].title
    ensures forall k :: k in tasks && k != parent && k != id ==> t2[k] == tasks[k]
  {
    tasks[id := Task(id, TaskTitle(id, name), {})]
         [parent := tasks[parent].(subtaskIds := tasks[parent].subtaskIds + {id})]
  }

  /** A fresh breakdown is well formed. */
  lemma InitialWellFormed()
    ensures WellFormed(Initial(), [RootTaskId])
  {
    assert Initial().Keys == {RootTaskId};
  }

  /** The new task comes last in the order, after its parent. */
  lemma AddTaskKeepsOrder(tasks: map<string, Task>, order: seq<string>, id: string, name: Option<string>, parent: string)
    requires WellFormed(tasks, order)
    requires id !in tasks && parent in tasks
    ensures var t2, o2 := WithTask(tasks, id, name, parent), order + [id];
      forall i, j :: 0 <= i < |o2| && 0 <= j < |o2| && o2[j] in t2[o2[i]].subtaskIds ==> i < j
  {
    var t2 := WithTask(tasks, id, name, parent);
    var o2 := order + [id];
    forall i, j | 0 <= i < |o2| && 0 <= j < |o2| && o2[j] in t2[o2[i]].subtaskIds
      ensures i < j
    {
      assert o2[i] in order;
      if j == |order| {
        var k :| 0 <= k < |order| && order[k] == parent;
        assert i == k;
      } else {
        assert o2[j] == order[j];
        assert o2[i] == order[i];
        assert order[j] in tasks[order[i]].subtaskIds;
      }
    }
  }

  /** The new task has exactly one parent, and every other task keeps its own. */
  lemma AddTaskKeepsParents(tasks: map<string, Task>, order: seq<string>, id: string, name: Option<string>, parent: string)
    requires WellFormed(tasks, order)
    requires id !in tasks && parent in tasks
    ensures var t2 := WithTask(tasks, id, name, parent);
      && (forall p, q, s :: p in t2 && q in t2 && s in t2[p].subtaskIds && s in t2[q].subtaskIds ==> p == q)
      && (forall s :: s in t2 && s != RootTaskId ==> exists p :: p in t2 && s in t2[p].subtaskIds)
  {
    AddTaskKeepsSingleParent(tasks, order, id, name, parent);
    var t2 := WithTask(tasks, id, name, parent);
    forall s | s in t2 && s != RootTaskId
      ensures exists p :: p in t2 && s in t2[p].subtaskIds
    {
      if s == id {
        assert s in t2[parent].subtaskIds;
      } else {
        var p :| p in tasks && s in tasks[p].subtaskIds;
        assert s in t2[p].subtaskIds;
      }
    }
  }

  /** No task becomes the subtask of two tasks: the new id was nobody's subtask before. */
  lemma AddTaskKeepsSingleParent(tasks: map<string, Task>, order: seq<string>, id: string, name: Option<string>, parent: string)
    requires WellFormed(tasks, order)
    requires id !in tasks && parent in tasks
    ensures var t2 := WithTask(tasks, id, name, parent);
      forall p, q, s :: p in t2 && q in t2 && s in t2[p].subtaskIds && s in t2[q].subtaskIds ==> p == q
  {
    var t2 := WithTask(tasks, id, name, parent);
    forall p, q, s | p in t2 && q in t2 && s in t2[p].subtaskIds && s in t2[q].subtaskIds
      ensures p == q
    {
      if s == id {
        assert p == parent && q == parent;
      } else {
        assert p != id && q != id;
        assert s in tasks[p].subtaskIds && s in tasks[q].subtaskIds;
      }
    }
  }

  /**
    A successful `addTask` keeps the breakdown well formed: closure, one
    parent per task, and acyclicity, because the new id is fresh.
   */
  lemma AddTaskKeepsWellFormed(tasks: map<string, Task>, order: seq<string>, id: string, name: Option<string>, parent: string)
    requires WellFormed(tasks, order)
    requires id !in tasks && parent in tasks
    ensures WellFormed(WithTask(tasks, id, name, parent), order + [id])
  {
    AddTaskKeepsIds(tasks, order, id, name, parent);
    AddTaskKeepsOrder(tasks, order, id, name, parent);
    AddTaskKeepsParents(tasks, order, id, name, parent);
  }

  /** The new id comes last in the order, and the tasks stay keyed by their ids and closed under subtasks. */
  lemma AddTaskKeepsIds(tasks: map<string, Task>, order: seq<string>, id: string, name: Option<string>, parent: string)
    requires WellFormed(tasks, order)
    requires id !in tasks && parent in tasks
    ensures var t2, o2 := WithTask(tasks, id, name, parent), order + [id];
      && |o2| >= 1 && o2[0] == RootTaskId && Distinct(o2)
      && (forall t :: t in t2 <==> t in o2)
      && t2[RootTaskId].title == RootTaskName
      && (forall t :: t in t2 ==> t2[t].id == t)
      && (forall t, s :: t in t2 && s in t2[t].subtaskIds ==> s in t2)
  {
    var o2 := order + [id];
    assert forall t :: t in o2 <==> t in order || t == id;
  }

  /** `WorkBreakdownMixin`: the tasks by id; the root task is `tasks[RootTaskId]`. */
  class WorkBreakdown {
    var tasks: map<string, Task>
    ghost var order: seq<string>

    ghost predicate Valid()
      reads this
    {
      WellFormed(tasks, order)
    }

    /** `__init__`: the root task `MAIN`, titled `Main`, with no subtasks. */
    constructor ()
      ensures Valid() && tasks == Initial()
    {
      tasks := Initial();
      order := [RootTaskId];
      InitialWellFormed();
    }

    /**
      `addTask(id, name=None, parent=ROOT_TASK_ID)`: a used id and an
      unknown parent are refused before anything changes; otherwise the task
      is added and becomes a subtask of `parent`.
     */
    method AddTask(id: string, name: Option<string> := None, parent: string := RootTaskId)
      returns (out: Outcome<TaskError>)
      requires Valid()
      modifies this
      ensures Valid()
      ensures old(id in tasks) ==> out == Fail(DuplicateTaskId(id)) && tasks == old(tasks)
      ensures old(id !in tasks && parent !in tasks) ==> out == Fail(ParentNotFound(parent)) && tasks == old(tasks)
      ensures old(id !in tasks && parent in tasks) ==>
        out == Pass && tasks == WithTask(old(tasks), id, name, parent)
      ensures old(id in tasks || parent !in tasks) ==> order == old(order)
      ensures old(id !in tasks && parent in tasks) ==> order == old(order) + [id]
    {
      if id in tasks {
        return Fail(DuplicateTaskId(id));
      }
      if parent !in tasks {
        return Fail(ParentNotFound(parent));
      }
      AddTaskKeepsWellFormed(tasks, order, id, name, parent);
      tasks := tasks[id := Task(id, TaskTitle(id, name), {})];
      tasks := tasks[parent := tasks[parent].(subtaskIds := tasks[parent].subtaskIds + {id})];
      order := order + [id];
      out := Pass;
    }

    /** `getSubtaskIds(task_id)`: the subtasks, all of them tasks; `KeyError` for an unknown id. */
    function GetSubtaskIds(taskId: string): (r: Result<set<string>, KeyError>)
      reads this
      requires Valid()
      ensures r.Ok? <==> taskId in tasks
      ensures r.Ok? ==> r.value == tasks[taskId].subtaskIds && r.value <= tasks.Keys
      ensures r.Err? ==> r.error == KeyError(taskId)
    {
      if taskId in tasks then Ok(tasks[taskId].subtaskIds) else Err(KeyError(taskId))
    }

    /** `getBreakdownRoot()`: the task `MAIN`, titled `Main`, which is no task's subtask. */
    function GetBreakdownRoot(): (r: Task)
      reads this
      requires Valid()
      ensures r == tasks[RootTaskId] && r.id == RootTaskId && r.title == RootTaskName
      ensures forall t :: t in tasks ==> RootTaskId !in tasks[t].subtaskIds
    {
      forall t | t in tasks
        ensures RootTaskId !in tasks[t].subtaskIds
      {
        var i :| 0 <= i < |order| && order[i] == t;
        assert order[0] == RootTaskId;
      }
      tasks[RootTaskId]
    }

    /** `getTaskById(id)`: the task with that id; `KeyError` for an unknown id. */
    function GetTaskById(id: string): (r: Result<Task, KeyError>)
      reads this
      requires Valid()
      ensures r.Ok? <==> id in tasks
      ensures r.Ok? ==> r.value == tasks[id] && r.value.id == id
      ensures r.Err? ==> r.error == KeyError(id)
    {
      if id in tasks then Ok(tasks[id]) else Err(KeyError(id))
    }
  }
}
