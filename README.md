# pmtk core in Dafny

A verified model of the core of pmtk, a small project-management toolkit.
It covers:

- **The addressable node tree** (`pmtk/model/tree.py`):
  - nodes with sibling-unique ids, parent links, cached absolute paths and children dictionaries;
  - `addChild`, with the re-indexing of a whole attached subtree;
  - absolute navigation (`.a.b`, an exact walk from the root);
  - fuzzy navigation. A relative dotted suffix is searched in the subtree of the origin, then in ever larger subtrees. The first subtree with a match decides, its shallowest match wins, and a tie at that level raises `AmbiguousPath`.
- **The work breakdown** (`pmtk/model/work.py`): tasks by id under the root task `MAIN`, and `addTask` with its two error cases.
- **Effort estimates** (`pmtk/model/effort.py`): an estimate wins; otherwise a task's effort is the sum of its subtasks' efforts.
- **The reader context** (`pmtk/ppl/reader.py`): a dictionary that falls back on a chain of parent contexts.
- **The title mixin and the project** (`pmtk/util.py`, `pmtk/model/project.py`): a title that defaults to the id.

Modules, one per file:

- **`Wrappers`**: `Option`, `Result`, `Outcome` (return or raise), Python's `KeyError`, and the shared helpers `Distinct`, `Pick` and `HasMember`.
- **`Paths`**: `str.split('.')` and the dot-join of `Node.__str__`, with both round trips.
- **`Tree`**: the node objects as a value.
  - A `Forest` maps node handles to the per-object fields `id`, `parent`, `abs_path` and `children`.
  - `Valid` is the invariant `addChild` keeps: parent links mirror the children dictionaries, and the absolute path is `('',)` at a root and the parent's path plus the id below it.
  - Also here: the pure operations `getRoot`, `getLevel`, `_matchesRelPath` and `_navigateDirect`, and the specification of `Node(...)` and `addChild` (`AddDetached`, `Attach`, `NewChild`, `Reindexed`).
- **`Navigation`**:
  - `FuzzyAt`, the recursion of `_navigateFuzzy`.
  - A declarative contract, taken from the module docstring of `tree.py`:
    - `Matches`: the nodes the lookup may return;
    - `Scope`: the smallest containing subtree (SCST) of the origin and a node;
    - `Outranks` and `Optimal`: which match wins.
  - `FuzzyContract`, the proof that the recursion meets that contract.
  - The search as the source runs it: `DepthFirst` (the iterator, as a worklist that yields the nodes in some parent-first order rather than the source's depth-first pre-order; nothing in the search depends on the order), `CollectMatches`, `ShallowestOf` and `NavigateFuzzy`, each proved equal to its specification.
- **`Nodes`**: class `Arena`, which holds the node fields as mutable state.
  - `NewNode` is `Node(id, parent)`.
  - `AddChild` updates `children`, `parent` and `abs_path` in place. The re-add recursion of `_readdChildren` becomes the loop `Readd`, which visits the subtree parents first.
- **`Work`**:
  - `WellFormed`, the invariant of the breakdown. A ghost `order` (the order in which tasks were added) witnesses that the subtask relation is acyclic.
  - Class `WorkBreakdown`.
- **`Effort`**:
  - `TaskEffort`/`SubtaskSum`, the recursive specification.
  - Class `EffortEstimates`. Its `GetTaskEffort` is recursive and loops over the subtask set, like the source's `sum(...)`.
- **`Reader`**: class `ReaderContext`, whose `Get` walks the parent chain.
- **`Util`**: the title and description defaults.
- **`Projects`**: class `Project`.

I/O and clocks are not involved anywhere in the core. The only external inputs are the arguments of the calls.

## Model

| member | source | states |
|---|---|---|
| Paths.FirstDot | pmtk/model/tree.py:130 | the cut of `split('.', 1)` is at a dot with no dot before it |
| Paths.Split | pmtk/model/tree.py:139 | `split('.')` yields at least one segment, and no segment contains a dot |
| Paths.JoinSplit | pmtk/model/tree.py:139 | dot-joining the segments of a split gives the string back |
| Paths.SplitJoin | pmtk/model/tree.py:84-85 | splitting the dot-join of dot-free segments gives the segments back |
| Paths.SplitAfterDot | pmtk/model/tree.py:130-131 | a dot following a dot-free first segment is where `split` cuts: that segment comes first, then the split of the rest |
| Tree.GetRoot | pmtk/model/tree.py:182-187 | `getRoot` returns a node without parent that is the node itself or one of its ancestors |
| Tree.RootIsAncestor | pmtk/model/tree.py:182-187 | every node with a parent lies strictly below its root |
| Tree.PathStartsEmpty | pmtk/model/tree.py:78 | every absolute path is non-empty and starts with the root's empty segment |
| Tree.LevelIsDepthPlusOne | pmtk/model/tree.py:90-92 | `getLevel` is the number of ancestors plus one, and it is 1 exactly at a root |
| Tree.GetLevel | pmtk/model/tree.py:90-92 | `getLevel` is the length of the absolute path, at least 1 |
| Tree.Str | pmtk/model/tree.py:84-85 | `str(node)` is the empty string at a root and starts with a dot below it |
| Tree.BelowPrefix | pmtk/model/tree.py:119 | a descendant's absolute path strictly extends its ancestor's |
| Tree.MatchesRelPath | pmtk/model/tree.py:137-143 | true iff the path has no more segments than the absolute path and equals its trailing segments, segment by segment |
| Tree.NavigateDirect | pmtk/model/tree.py:126-135 | a node found has a parent in the tree; every failure, at any depth, is `NonexistentPath` of the whole path given to this call |
| Tree.NavigateDirectSound | pmtk/model/tree.py:126-135 | what `_navigateDirect` returns is below the start node, and its absolute path is the start's extended by the path's segments |
| Tree.NavigateDirectComplete | pmtk/model/tree.py:126-135 | every descendant whose absolute path extends the start's by the path's segments is what `_navigateDirect` returns |
| Tree.AbsoluteRoundTrip | pmtk/model/tree.py:175-187 | for any non-root `n` and any `x` of the same tree, `str(n)` starts with a dot and the walk down from the root along `str(n)[1:]` reaches `n`, when no id on the path holds a dot |
| Tree.AddDetached | pmtk/model/tree.py:75-80 | a node built without parent gets path `('',)`, no children and no parent, and the forest stays valid |
| Tree.AddDetachedValid | pmtk/model/tree.py:75-80 | adding a node with path `('',)`, no parent and no children to a valid forest keeps every invariant |
| Tree.Attach | pmtk/model/tree.py:110-120 | `addChild` keeps the forest valid, enters the child under its id, sets its parent and path, changes no other children dictionary, and moves no node outside the child's subtree |
| Tree.NewChild | pmtk/model/tree.py:81-82 | `Node(id, q)` adds exactly the entry `id` to `q`'s children, sets parent `q` and path `q`'s path plus `id`, and changes no other node |
| Tree.Reindexed | pmtk/model/tree.py:98-108 | after the re-index, each node of the attached subtree has the parent's path plus the child id, followed by its old path below the child; other nodes keep their paths |
| Tree.ReindexedStep | pmtk/model/tree.py:104-108 | inside the moved subtree, each node's new path is its parent's new path plus its own id, as re-adding the children computes it |
| Tree.AttachValid | pmtk/model/tree.py:117-120 | setting the parent link, the children entry and the re-indexed paths restores every invariant of the forest |
| Tree.AttachMovesSubtree | pmtk/model/tree.py:115-120 | the attached child gets its new parent's path plus its id; only the parent's children dictionary gains an entry, and nodes outside the child's subtree keep their paths |
| Navigation.ChildrenExcept | pmtk/model/tree.py:147-148 | the children the iterator enters are exactly the nodes whose parent is the node, other than the skipped one |
| Navigation.Candidates | pmtk/model/tree.py:145-151 | the nodes `_depthFirstIterator(skip_node)` yields: the descendants reached without entering `skip_node`; `ChildrenExcept` and `SkipChild` characterise it |
| Navigation.SkipChild | pmtk/model/tree.py:145-151 | the iterator with `skip_node` a child `c` yields exactly the descendants not at or below `c` |
| Navigation.RegionIsScope | pmtk/model/tree.py:168-171 | the nodes searched at each level of the widening search are exactly the nodes whose SCST with the origin is that level's node |
| Navigation.Scope | pmtk/model/tree.py:14-17 | the SCST root is an ancestor-or-self of the origin with the node below it, and the deepest such |
| Navigation.FuzzyAt | pmtk/model/tree.py:153-173 | a node returned exists and matches the path; an error is `NonexistentPath(path)`, or `AmbiguousPath(path, nodes)` with at least two nodes |
| Navigation.Navigate | pmtk/model/tree.py:175-180 | a node returned exists; `NonexistentPath` carries the path after the leading dot for an absolute path and the path itself otherwise |
| Navigation.FuzzyAtOne | pmtk/model/tree.py:159-160 | a single match at a level is the result |
| Navigation.FuzzyAtMany | pmtk/model/tree.py:161-167 | with several matches, a unique shallowest one is the result, and otherwise `AmbiguousPath` carries exactly the tied shallowest nodes |
| Navigation.FuzzyAtDescribes | pmtk/model/tree.py:168-173 | when a level finds nothing, the retry from the parent that skips the searched child still meets the contract, and at the root it is `NonexistentPath` |
| Navigation.FuzzyContract | pmtk/model/tree.py:30-48 | fuzzy navigation returns the single optimal match (smallest SCST first, then the shallowest). A tie raises `AmbiguousPath` with exactly the optimal nodes, at least two. `NonexistentPath` is raised iff no node of the tree outside the origin's own ancestry matches |
| Navigation.DescribesIsFunctional | pmtk/model/tree.py:30-48 | the docstring's rules admit one outcome only, so they determine fuzzy navigation completely |
| Navigation.NavigateMeaning | pmtk/model/tree.py:175-180 | a path with a leading dot returns exactly the root descendant whose absolute path is the root's plus the segments, and raises `NonexistentPath(path[1:])` when there is none; any other path obeys the fuzzy contract |
| Navigation.AbsoluteNavigate | pmtk/model/tree.py:175-178 | `x.navigate(str(n))` returns `n` for every non-root `n` of `x`'s tree whose ids hold no dot |
| Navigation.DotIsNotTheRoot | pmtk/model/tree.py:177-178 | `navigate('.')` looks up a child `''` of the root and, without one, raises `NonexistentPath('')` |
| Navigation.DepthFirst | pmtk/model/tree.py:145-151 | the iterator's nodes: each node of the searched subtree, outside the skipped one, exactly once, and every parent before its children (some parent-first order, not necessarily the source's pre-order) |
| Navigation.CollectMatches | pmtk/model/tree.py:155-158 | `found` holds exactly the yielded nodes that match the path, each once |
| Navigation.ShallowestOf | pmtk/model/tree.py:162-166 | the filtered list holds exactly the found nodes at the minimal level, each once |
| Navigation.NavigateFuzzy | pmtk/model/tree.py:153-173 | the loop-and-recursion search returns exactly what the specification `FuzzyAt` gives |
| Nodes.Arena.NewNode | pmtk/model/tree.py:75-82 | a fresh handle; without parent a detached root. A duplicate id under the parent is `DuplicateChildId`, and the parent is untouched. Otherwise the new state is `NewChild`, and the invariant holds |
| Nodes.Arena.Detached | pmtk/model/tree.py:75-80 | the node fields of a new object: id, path `('',)`, no children, no parent |
| Nodes.Arena.AddChild | pmtk/model/tree.py:110-120 | a duplicate child id raises before any change. Otherwise the new state is `Attach` of the old one, and the invariant is kept |
| Nodes.Arena.Link | pmtk/model/tree.py:117-120 | past the duplicate check, the entry, the parent link and the re-indexed paths give exactly `Attach` of the old state, and the invariant is kept |
| Nodes.Arena.Navigate | pmtk/model/tree.py:175-180 | the method's result is that of the specification `Navigate` on the current state |
| Nodes.Readd | pmtk/model/tree.py:98-108 | the paths after re-adding the subtree, parents first, are exactly `Reindexed` |
| Work.InitialWellFormed | pmtk/model/work.py:20-25 | the fresh breakdown, the root task `MAIN` titled `Main` alone, satisfies the invariant |
| Work.TaskTitle | pmtk/model/work.py:33 | the title `addTask` stores: the name, or the id when the name is `None` |
| Work.WithTask | pmtk/model/work.py:33-34 | the tasks after `addTask`: one new key `id`, holding a task with that id, the default title and no subtasks; the parent gains `id` as a subtask and keeps its id and title; every other task is unchanged |
| Work.AddTaskKeepsOrder | pmtk/model/work.py:33-34 | after adding a fresh task, every subtask was still added after its parent (acyclicity) |
| Work.AddTaskKeepsIds | pmtk/model/work.py:33-34 | after adding a fresh task, the order lists exactly the tasks, without repetition and from the root; every task is stored under its id; every subtask id names a task |
| Work.AddTaskKeepsParents | pmtk/model/work.py:33-34 | after adding a fresh task, every task is the subtask of one task at most, and every non-root task of some task |
| Work.AddTaskKeepsSingleParent | pmtk/model/work.py:33-34 | after adding a fresh task, no task is the subtask of two tasks |
| Work.AddTaskKeepsWellFormed | pmtk/model/work.py:27-34 | a successful `addTask` keeps closure, single parents, acyclicity and the root |
| Work.WorkBreakdown.constructor | pmtk/model/work.py:20-25 | a new breakdown holds exactly the root task `MAIN` titled `Main` without subtasks |
| Work.WorkBreakdown.AddTask | pmtk/model/work.py:27-34 | a used id and an unknown parent raise before any change. Otherwise exactly `tasks[id]` is added, titled `name` or `id`, and `id` joins only the parent's subtasks; the invariant is kept, and the ghost insertion order gains `id` at its end exactly when the task is added |
| Work.WorkBreakdown.GetSubtaskIds | pmtk/model/work.py:36-37 | the task's subtask ids, all of them tasks; `KeyError` iff the id is unknown |
| Work.WorkBreakdown.GetBreakdownRoot | pmtk/model/work.py:39-40 | the task `MAIN` titled `Main`, which is no task's subtask |
| Work.WorkBreakdown.GetTaskById | pmtk/model/work.py:42-43 | the task with that id; `KeyError` iff the id is unknown |
| Work.MessageAsWrittenHidesParent | pmtk/model/work.py:32 | the message as written is the same for two different missing parents |
| Work.MessageAsWritten | pmtk/model/work.py:29-32 | the two `ValueError` texts as the source formats them, the missing-parent one with the new task's id |
| Work.Message | pmtk/model/work.py:29-32 | the two `ValueError` texts with the missing-parent one naming the parent |
| Work.MessageNamesParent | pmtk/model/work.py:31-32 | the corrected message differs exactly when the missing parents differ |
| Effort.SubtaskRanksLower | pmtk/model/effort.py:25-26 | a subtask was added after its parent, which is why the recursion of `getTaskEffort` ends |
| Effort.TaskEffort | pmtk/model/effort.py:17-26 | the effort exists iff the id has an estimate or is a task; otherwise it is `KeyError` of that id |
| Effort.SubtaskSum | pmtk/model/effort.py:25-26 | the `sum(...)` over the subtasks of a task; `SubtaskSumSplit` shows it does not depend on the order of the set |
| Effort.SubtaskSumSplit | pmtk/model/effort.py:25-26 | the sum over the subtasks is any one subtask's effort plus the sum over the others, so it does not depend on the order of the set |
| Effort.LeafEffort | pmtk/model/effort.py:18-20 | a task with no estimate and no subtasks has effort 0 |
| Effort.TwoSubtasks | pmtk/model/effort.py:25-26 | without an estimate, a task with two subtasks has the sum of their efforts |
| Effort.LeafKeepsEffort | pmtk/model/effort.py:22-26 | adding a leaf without estimate leaves every other task's effort as it was |
| Effort.LeafKeepsSum | pmtk/model/effort.py:25-26 | adding a leaf leaves the sum over any set of old subtasks as it was |
| Effort.OrderKeepsEffort | pmtk/model/effort.py:22-26 | a task's effort is the same under any two insertion orders of the same tasks, so it depends on the breakdown alone |
| Effort.OrderKeepsSum | pmtk/model/effort.py:25-26 | the sum over a set of subtasks is the same under any two insertion orders |
| Effort.AddTaskKeepsEffort | pmtk/model/effort.py:22-26 | a successful `addTask` without estimate changes the effort of no task already there |
| Effort.EffortAcrossAddTask | pmtk/model/effort.py:17-26 | through the classes: `getTaskEffort(t)` reports the same value before and after an `addTask` of another, unestimated id, whether that call adds the task or is refused |
| Effort.EffortEstimates.constructor | pmtk/model/effort.py:9-11 | no estimates over the given breakdown |
| Effort.EffortEstimates.AddEstimate | pmtk/model/effort.py:13-15 | sets or replaces the estimate of that id and no other |
| Effort.EffortEstimates.GetTaskEffort | pmtk/model/effort.py:17-26 | the result is `TaskEffort`. An estimate is returned whatever the subtasks; otherwise the efforts of the subtasks are summed |
| Effort.EffortEstimates.GetTotalEffort | pmtk/model/effort.py:28-30 | the total is the effort of the breakdown root, which always exists |
| Effort.SimpleTaskExample | pmtk/tests/test_effort.py:12-22 | `a`=5 gives a total of 5, and adding `ba`=3 and `bb`=2 under `b` gives 10 |
| Effort.TwoTasks | pmtk/tests/test_effort.py:13-15 | the test's set-up: tasks `a` and `b` under the root, `b` without subtasks, and the breakdown valid |
| Effort.SplitB | pmtk/tests/test_effort.py:18-19 | the test's second set-up: `ba` and `bb` under `b`, the root's subtasks unchanged, and the breakdown valid |
| Effort.FirstTotal | pmtk/tests/test_effort.py:13-17 | with `a` and `b` under the root, `b` a leaf and only `a` estimated at 5, the root's effort is 5 |
| Effort.SecondTotal | pmtk/tests/test_effort.py:18-22 | with `ba` and `bb` under `b` and estimates `a`=5, `ba`=3, `bb`=2, the root's effort is 10 |
| Effort.AddLeaf | pmtk/model/work.py:27-34 | `addTask` of a fresh id under an existing parent adds exactly that leaf and keeps the invariant |
| Reader.ReaderContext.constructor | pmtk/ppl/reader.py:8-10 | stores the parent link (none by default), and the own entries are exactly the keyword arguments (none by default) |
| Reader.ReaderContext.Get | pmtk/ppl/reader.py:12-22 | the value of the first context in the chain that has the key. When none has it: the default if given, `KeyError(key)` otherwise |
| Reader.ReaderContext.GetOwn | pmtk/tests/test_reader.py:20 | `dict.get` looks at the own entries only, else returns the default |
| Reader.OwnEntryShadows | pmtk/ppl/reader.py:13-14 | an own entry is returned whatever the default and whatever the parents hold |
| Reader.MissingGoesToParent | pmtk/ppl/reader.py:15-17 | a key missing locally is looked up in the parent with the same default |
| Reader.GetFails | pmtk/ppl/reader.py:18-22 | lookup raises `KeyError(key)` iff there is no default and no context of the chain has the key |
| Reader.ContextExample | pmtk/tests/test_reader.py:12-25 | the values of the reader test, the `get` default 6, and `KeyError` for `a['z']` |
| Util.Title | pmtk/util.py:11-12 | the stored title when there is one, the id otherwise |
| Projects.Project.constructor | pmtk/model/project.py:11-14 | the given id, the title stored as given (so the title is the id when none is given), the empty description, and a fresh breakdown with only the root task |
| Projects.Project.Title | pmtk/util.py:11-12 | the stored title, or the current id when it is `None` |
| Projects.Project.SetTitle | pmtk/util.py:14-17 | a title set is read back as given; `None` brings back the id; the id and description do not change |
| Projects.RenameExample | pmtk/util.py:11-12 | after `p.id` is reassigned, a project without a stored title reports the new id as its title, and one with a stored title keeps that title |
| Projects.NewProjectExample | pmtk/model/project.py:11-14 | `Project('p')` has title `p` and id `p`; with a title it reports that title; its breakdown holds one task, titled `Main` |

## Left out

- `Reader.read` is an empty method in the source; the `.ppl` parser it would call is not part of this model.
- `subnodes_index` is set and cleared but never read, so it is not modelled.
- `AmbiguousPath.nodes` is modelled as a set. The source sorts `(level, node)` pairs, so the order of tied nodes depends on how Python 2 compares node objects. For the same reason, the order of dictionary iteration in `_depthFirstIterator` is not modelled; the result does not depend on it.
- Message texts of errors and `__str__`/`__repr__` of errors are not modelled, except the `addTask` messages under "Findings". `str(node)` is modelled as the dot-join of the absolute path (`Tree.Str`).
- Nodes.Arena.AddChild requires a child that has no parent and is not the root of the parent's tree. In the source, re-parenting an attached node leaves a stale entry in the old parent's `children`, and attaching an ancestor under its descendant makes `_readdChildren` recurse without end. Neither is a state the rest of the code expects.
- Tree.Attach carries the same requirement as `Nodes.Arena.AddChild`: a child without parent that is not the root of the parent's tree.
- Nodes.Arena.Link carries the same requirement as `Nodes.Arena.AddChild`, for the same reason.
- Nodes.Arena.AddChild: `_readdChildren` empties and refills each `children` dictionary with the same entries; the model leaves the dictionaries in place and recomputes only the paths. The resulting state is the same.
- Nodes.Arena.NewNode: when `Node(id, parent)` raises `DuplicateChildId`, the half-built detached node stays in the arena (in the source it is an unreachable object).
- Tree.AbsoluteRoundTrip assumes that no id on the node's path contains a dot, because such an id splits into several segments. The source does not forbid dotted ids.
- The `fuzzy` argument of `navigate(path, fuzzy=False)` is never read by the source, so the model's `Navigate` has no such parameter; the path alone decides between absolute and fuzzy lookup.
- `navigate('.')` looks up a child with the empty id under the root (`Navigation.DotIsNotTheRoot`), so in a tree without such a child it raises `NonexistentPath('')`. It does not return the root. The model follows the code.
- A worked example of `test_addSubnode` (five nodes and the resulting `children` dictionaries) is not included. `Nodes.Arena.NewNode` and `Tree.NewChild` state the children dictionary after each construction.
- `Task` objects are values in the `tasks` map. The source's `root_task` attribute is the same object as `tasks['MAIN']`, so `GetBreakdownRoot` returns `tasks[RootTaskId]`.
- `Project` holds its work breakdown in a field, `breakdown`, instead of inheriting from the mixin. `EffortEstimates` is modelled over a `WorkBreakdown` directly, because `Project` does not mix in `EffortEstimatesMixin` although the effort test calls `addEstimate` on it.
- Man-hours are unbounded integers; floating-point estimates are not modelled.
- `pmtk/tests/test_work.py` exercises an API that `pmtk/model/work.py` does not have, so no property is taken from it.
- `ppl/project.py` and the `ppl` test files are not part of this model, nor are `setup.py` and `ppl/tests/setup.py` (packaging and `sys.path` set-up).
- Python's dynamic attributes (assigning `project.id` or `project.description` from outside) are plain field writes and have no method of their own. `Projects.RenameExample` shows how the title follows a changed id.

## Findings

| source | as written | input that shows it | evidently intended | confidence | as-written member | corrected member |
|---|---|---|---|---|---|---|
| pmtk/model/work.py:32 | the missing-parent `ValueError` message is formatted with the new task's `id` | `addTask('x', parent='y')` and `addTask('x', parent='z')` give the same message "Parent task id (x) does not exist" | the message names the missing parent, as its wording says | high, not executed | Work.MessageAsWrittenHidesParent | Work.MessageNamesParent |
