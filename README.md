# Task board provider, modelled in Dafny

This project models the task-collection engine of a kanban-style task board. The engine is the
`TaskProvider` React provider (`src/providers/TaskProvider.tsx`). The board keeps all tasks in
one flat ordered list. A task has an `id`, a `title`, a `description` and a `stage`. The stage
is one of `Pending`, `In Progress` and `Complete`, in that column order. A column shows the
tasks of its stage, filtered out of the flat list in list order (`src/components/Column.tsx:22`).

The provider holds two pieces of state: the list `tasks` and the dragged task `activeTask`.
It offers:

- `deduplicateTasks`: keeps the first task of each id. It runs when the saved list is loaded.
- The save effect: after every change it either repairs the state with the deduplicated list
  or writes the list to storage.
- The list operations `addTask`, `deleteTask`, `moveTask` and `editTask`.
- The drag handlers `handleDragStart`, `handleDragOver` and `handleDragEnd`. `handleDragOver`
  rearranges the list live while a task hovers over another task or over a column.

Layout, one module per file:

- `task.dfy` (`TaskModel`): the `Task` record, the `Stage` enumeration, the column order and
  the stage names. A stage name doubles as the id of that column's drop zone.
- `task_list.dfy` (`TaskList`): the list primitives the provider uses, with their laws.
  - `find` and `findIndex` by id.
  - `filter` by stage or by "id differs".
  - `splice` as `RemoveAt` and `InsertAt`.
  - The single-element move `MoveTo`, and dnd-kit's `arrayMove` defined through it.
- `persistence.dfy` (`Persistence`): `deduplicateTasks` as a method with a loop. It is proved
  equal to the ghost function `Dedup`. The module also holds the save effect's repair-or-save
  decision, `SyncEffect`.
- `operations.dfy` (`Operations`): the list transforms as functions of the old list (`Added`,
  `Deleted`, `Moved`, `Edited`, `DragOver`), with lemmas about each.
- `provider.dfy` (`Provider`): the class `TaskProvider` with the fields `tasks` and
  `activeTask`. Each method overwrites the state as the source does. Its `ensures` ties the new
  list to the matching function of the old list.
- `dialogs.dfy` (`Dialogs`): the blank-title guard of the add and edit dialogs. The provider's own
  operations do not check titles. The model puts each dialog's submit in front of `addTask` or
  `editTask`, as the dialogs' prop names and `src/App.tsx:75` intend. The components as written do
  not make that connection; see "## Left out".

Modelling choices:

- Ids and drop-target ids are strings. A hover target is first looked up as a task id. Only if
  no task has that id is it parsed as a stage name (`ParseStage`).
- Only the first task with the dragged id is moved by a drag over a task (`find`/`findIndex`).
  `moveTask` and `editTask` rewrite every task with the id (`map`).
- A drag over a task always lands the dragged task at the target's original index. The index is
  taken before the removal, in both the cross-stage branch (`splice`) and the same-stage branch
  (`arrayMove`). So `[A@Pending, B@In Progress]` with A dragged over B gives
  `[B@In Progress, A@In Progress]`, not `[A, B]` (`DragOverExample`).

## Model

| member | source | states |
|---|---|---|
| `TaskModel.ParseStage` | src/App.tsx:21 | A drop-target id is recognised as a stage exactly when it is that stage's name. An id that names no stage is recognised as none. |
| `TaskModel.StagesEnumerateStage` | src/types/task.ts:1 | The column order lists every stage exactly once. The default stage of a new task is the first column. |
| `TaskModel.ParseStageName` | src/providers/TaskProvider.tsx:143-144 | Parsing a stage's name gives back that stage. |
| `TaskList.Ids` | src/components/Column.tsx:23 | The ids of a list, one per task, in list order. |
| `TaskList.FindIndex` | src/providers/TaskProvider.tsx:121-122 | `findIndex` by id gives the first index holding the id. It gives -1 exactly when no task has the id. |
| `TaskList.Find` | src/providers/TaskProvider.tsx:113-117 | `find` by id gives a task exactly when the id occurs. That task is the one at the first index holding the id. |
| `TaskList.FindIndexPrefix` | src/providers/TaskProvider.tsx:121 | The first index of an id that occurs in a prefix does not depend on what follows the prefix. |
| `TaskList.FindIndexAppend` | src/providers/TaskProvider.tsx:121 | An id that first occurs in an appended task is found at the old length. |
| `TaskList.Filter` | src/components/Column.tsx:22 | A filter keeps exactly the tasks its criterion accepts and never lengthens the list. |
| `TaskList.StageView` | src/components/Column.tsx:22 | The tasks shown in one column, top to bottom. It has no contract of its own. `Filter`'s contract and the lemmas `FilterConcat`, `FilterSubsequence` and `PairInColumn` characterise it. |
| `TaskList.FilterConcat` | src/components/Column.tsx:22 | Filtering a concatenation gives the concatenation of the filtered parts. |
| `TaskList.FilterSubsequence` | src/components/Column.tsx:22 | A filter keeps its survivors in their original relative order. |
| `TaskList.FilterKeepsAll` | src/providers/TaskProvider.tsx:72 | A filter that accepts every task returns the list unchanged. |
| `TaskList.FilterCommutes` | src/components/Column.tsx:22 | Two filters applied in either order give the same list. |
| `TaskList.FilterIdempotent` | src/components/Column.tsx:22 | Filtering twice by the same criterion is filtering once. |
| `TaskList.RemoveAt` | src/providers/TaskProvider.tsx:128 | `splice(i, 1)` shortens the list by one. Elements before `i` keep their index and those after move up by one. |
| `TaskList.InsertAt` | src/providers/TaskProvider.tsx:129 | `splice(i, 0, x)` puts `x` at index `i`. Elements before `i` keep their index and those after move down by one. |
| `TaskList.RemoveInserted` | src/providers/TaskProvider.tsx:128-129 | Removing at `i` what was just inserted at `i` gives back the list. |
| `TaskList.InsertRemoved` | src/providers/TaskProvider.tsx:128-129 | Re-inserting at `i` the element removed from `i` gives back the list. |
| `TaskList.MoveTo` | src/providers/TaskProvider.tsx:126-129 | Remove at `from`, then insert at `to` (an index taken before the removal). The element lands at `to` and the length is unchanged. Removing it again gives the old list minus the old element. The elements between the two positions shift by one and all others stay put. |
| `TaskList.MoveToNeighbour` | src/providers/TaskProvider.tsx:127-129 | After a move, the element displaced from the target index sits right next to the moved element: before it for a downward move, after it for an upward move. |
| `TaskList.ArrayMove` | src/providers/TaskProvider.tsx:139 | dnd-kit's `arrayMove` keeps the length and puts the moved element at the target index. |
| `TaskList.ArrayMoveInverse` | src/providers/TaskProvider.tsx:139 | Moving the element back from `to` to `from` undoes `arrayMove`. |
| `TaskList.MoveToMultiset` | src/providers/TaskProvider.tsx:126-129 | A move changes the multiset of elements only by swapping the old element for the inserted one. |
| `Persistence.DeduplicateTasks` | src/providers/TaskProvider.tsx:21-33 | The seen-set loop returns the first-occurrence list `Dedup`. Its ids are pairwise distinct. It keeps the length exactly when the input has no duplicate ids. |
| `Persistence.Dedup` | src/providers/TaskProvider.tsx:21-33 | The reference definition of `deduplicateTasks`: it keeps the first task for each id. It has no contract of its own. `DedupKeepsFirst`, `DedupIdSet`, `DedupUniqueIds`, `DedupSubsequence` and `DedupFirstOccurrenceOrder` characterise it. |
| `Persistence.IdSetAppend` | src/providers/TaskProvider.tsx:26-28 | Appending a task adds exactly its id to the seen ids. |
| `Persistence.DedupIdSet` | src/providers/TaskProvider.tsx:21-33 | Deduplication keeps every id of the input. |
| `Persistence.DedupUniqueIds` | src/providers/TaskProvider.tsx:21-33 | The ids of the deduplicated list are pairwise distinct. |
| `Persistence.DedupSubsequence` | src/providers/TaskProvider.tsx:21-33 | Deduplication only drops tasks, and the kept tasks stay in their original relative order. |
| `Persistence.DedupKeepsFirst` | src/providers/TaskProvider.tsx:25-29 | Every kept task is the first task in the input carrying its id. |
| `Persistence.DedupFirstOccurrenceOrder` | src/providers/TaskProvider.tsx:25-29 | The kept tasks are ordered by where their ids first occur in the input. |
| `Persistence.DedupOfUnique` | src/providers/TaskProvider.tsx:21-33 | A list with distinct ids is returned unchanged. |
| `Persistence.DedupIdempotent` | src/providers/TaskProvider.tsx:21-33 | Deduplicating twice is deduplicating once. |
| `Persistence.DedupLength` | src/providers/TaskProvider.tsx:47-48 | Deduplication never lengthens the list. It keeps the length exactly when the ids are distinct, so the effect's length test detects duplicates exactly. |
| `Persistence.SyncEffect` | src/providers/TaskProvider.tsx:45-53 | The effect's decision: repair with the deduplication when it is shorter, otherwise save the list. It has no contract of its own. `SyncEffectDecision` and `RepairThenSave` characterise it. |
| `Persistence.SyncEffectDecision` | src/providers/TaskProvider.tsx:45-53 | The effect saves exactly when the ids are distinct, and then saves the list as it is. Otherwise it replaces the state with the shorter, duplicate-free deduplication that has the same ids, and saves nothing. |
| `Persistence.RepairThenSave` | src/providers/TaskProvider.tsx:45-53 | After a repair, the effect's next run on the replacement saves it. |
| `Operations.Added` | src/providers/TaskProvider.tsx:55-69 | `addTask` gives a list one longer whose prefix is the old list and whose last task has the given id, title, description and stage. The stage defaults to `Pending`. |
| `Operations.AddedKeepsIdsUnique` | src/providers/TaskProvider.tsx:60-67 | Adding with an id not already on the board keeps the ids distinct. |
| `Operations.AddedColumns` | src/providers/TaskProvider.tsx:67 | The new task shows at the bottom of its own column. Every other column is unchanged. |
| `Operations.Deleted` | src/providers/TaskProvider.tsx:71-73 | After `deleteTask` the list holds exactly the old tasks whose id differs from the deleted one. |
| `Operations.DeletedKeepsOthersInOrder` | src/providers/TaskProvider.tsx:72 | After deletion no task has the id, and the remaining tasks keep their relative order. |
| `Operations.DeletedKeepsIdsUnique` | src/providers/TaskProvider.tsx:72 | Deleting keeps distinct ids distinct. |
| `Operations.DeletedAbsent` | src/providers/TaskProvider.tsx:72 | Deleting an id that is not on the board leaves the list unchanged. |
| `Operations.DeletedLength` | src/providers/TaskProvider.tsx:72 | With distinct ids, deleting a present id shortens the list by exactly one. Deleting an absent id does not change the length. |
| `Operations.DeletedColumns` | src/providers/TaskProvider.tsx:72 | Every column after deletion is that column before deletion with the id deleted. |
| `Operations.Moved` | src/providers/TaskProvider.tsx:75-81 | `moveTask` keeps the length and every field except `stage` of every task. Exactly the tasks with the id get the new stage. |
| `Operations.MovedKeepsIds` | src/providers/TaskProvider.tsx:77-79 | Moving keeps the ids in order, so distinct ids stay distinct. |
| `Operations.MovedNoOps` | src/providers/TaskProvider.tsx:77-79 | Moving an absent id changes nothing. Moving a task to the stage every task with that id already has changes nothing. Moving twice to the same stage is moving once. |
| `Operations.MovedColumns` | src/providers/TaskProvider.tsx:77-79 | After a move the task shows in the column of its new stage and in no other column. |
| `Operations.Edited` | src/providers/TaskProvider.tsx:83-89 | `editTask` keeps the length, the ids and the stages. Tasks with the id get the title and description. All other tasks are unchanged. |
| `Operations.SameShapeSameColumns` | src/components/Column.tsx:22-23 | Two lists with the same ids and stages at each index show the same ids in every column. |
| `Operations.EditedKeepsIds` | src/providers/TaskProvider.tsx:85-87 | Editing keeps the ids in order, so distinct ids stay distinct. |
| `Operations.EditedKeepsColumns` | src/providers/TaskProvider.tsx:85-87 | Editing keeps every column's ids in order. |
| `Operations.EditedAbsent` | src/providers/TaskProvider.tsx:85-87 | Editing an absent id changes nothing. |
| `Operations.DragOver` | src/providers/TaskProvider.tsx:103-149 | The list update of `handleDragOver` keeps the length in every case. |
| `Operations.DragOverNoOps` | src/providers/TaskProvider.tsx:103-148 | The list is unchanged when there is no target, when the target is the dragged task, or when the dragged task is missing. It is also unchanged when the target is neither a task nor a stage, or is the dragged task's own stage. |
| `Operations.IdsMoveTo` | src/providers/TaskProvider.tsx:126-129 | When the moved task keeps its id, the ids of the result are the ids moved the same way. |
| `Operations.RemoveAtKeepsIdsUnique` | src/providers/TaskProvider.tsx:128 | Removing a task keeps distinct ids distinct, and the removed id no longer occurs. |
| `Operations.InsertAtKeepsIdsUnique` | src/providers/TaskProvider.tsx:129 | Inserting a task with a new id keeps the ids distinct. |
| `Operations.MoveToKeepsIdsUnique` | src/providers/TaskProvider.tsx:126-129 | Moving a task that keeps its id keeps the ids distinct. |
| `Operations.MoveToPermutesIds` | src/providers/TaskProvider.tsx:126-129 | Moving a task that keeps its id permutes the ids (same multiset) and keeps distinct ids distinct. |
| `Operations.DragOverTaskIsMove` | src/providers/TaskProvider.tsx:117-140 | Over another task, both branches are the same move: the dragged task goes from its index to the target's original index and takes the target's stage. In the same-stage branch that stage is its own. |
| `Operations.DragOverTask` | src/providers/TaskProvider.tsx:117-140 | Over another task the length is kept, and the dragged task, restaged to the target's stage, sits at the target's original index. Removing it from the result gives the old list minus the dragged task, so no other task changes or reorders. The ids are permuted and stay distinct if they were. |
| `Operations.MoveToAdjacentInColumn` | src/providers/TaskProvider.tsx:126-129 | A move that gives the element the target's stage makes the two neighbours in the target's column. The target comes first for a downward move and second for an upward move. |
| `Operations.DragOverTaskAdjacent` | src/providers/TaskProvider.tsx:117-140 | Over another task, the dragged task ends next to the target in the target's column. |
| `Operations.PairInColumn` | src/components/Column.tsx:22 | Two neighbouring tasks of the same stage are neighbours in that column. |
| `Operations.DragOverColumn` | src/providers/TaskProvider.tsx:142-148 | Over another stage's column, the ids and their order are unchanged. The tasks with the dragged id get that stage and every other task is unchanged. |
| `Operations.DragOverKeepsIdsUnique` | src/providers/TaskProvider.tsx:103-149 | Every hover update keeps distinct ids distinct, whatever the target. |
| `Operations.DragOverExample` | src/providers/TaskProvider.tsx:119-131 | `[A@Pending, B@In Progress]` with A dragged over B gives `[B, A@In Progress]`. |
| `Provider.TaskProvider.constructor` | src/providers/TaskProvider.tsx:36-43 | The initial list is the saved list deduplicated, with distinct ids, and no task is being dragged. The first run of the effect saves that list unchanged. |
| `Provider.TaskProvider.SyncStorage` | src/providers/TaskProvider.tsx:45-53 | The effect writes exactly when the old list has distinct ids, and then writes it unchanged. Otherwise it replaces the state with the deduplication. Either way the ids are distinct afterwards. |
| `Provider.TaskProvider.AddTask` | src/providers/TaskProvider.tsx:55-69 | The new list is `Added` of the old one. With a fresh id, distinct ids stay distinct. |
| `Provider.TaskProvider.DeleteTask` | src/providers/TaskProvider.tsx:71-73 | The new list is `Deleted` of the old one. The id is gone and the rest keep their relative order. Distinct ids stay distinct. |
| `Provider.TaskProvider.MoveTask` | src/providers/TaskProvider.tsx:75-81 | The new list is `Moved` of the old one, with the same ids in the same order. Distinct ids stay distinct. |
| `Provider.TaskProvider.EditTask` | src/providers/TaskProvider.tsx:83-89 | The new list is `Edited` of the old one, with the same ids in the same order. Distinct ids stay distinct. |
| `Provider.TaskProvider.HandleDragStart` | src/providers/TaskProvider.tsx:92-101 | The drag marker becomes the first task with the dragged id. An unknown id leaves the marker as it was. The list is untouched. |
| `Provider.TaskProvider.HandleDragOver` | src/providers/TaskProvider.tsx:103-149 | The new list is `DragOver` of the old list and the hover event, with the same length. Distinct ids stay distinct. The drag marker is untouched. |
| `Provider.TaskProvider.HandleDragEnd` | src/providers/TaskProvider.tsx:151-153 | The drag marker is cleared and the list is untouched. |
| `Dialogs.TrimStart` | src/components/AddTaskDialog.tsx:29 | Trimming the start drops exactly the leading whitespace: what remains is a suffix that is empty or starts with a non-whitespace character. |
| `Dialogs.TrimEnd` | src/components/AddTaskDialog.tsx:29 | Trimming the end drops exactly the trailing whitespace: what remains is a prefix that is empty or ends with a non-whitespace character. |
| `Dialogs.Trim` | src/components/AddTaskDialog.tsx:29-31 | `String.prototype.trim`, used again at `src/components/EditTaskDialog.tsx:41`. It has no contract of its own. `TrimSlice`, `TrimBlank` and `TrimIdempotent` characterise it. |
| `Dialogs.TrimSlice` | src/components/AddTaskDialog.tsx:31 | `trim` gives a slice of the input that neither starts nor ends with whitespace. Everything cut off on either side is whitespace. |
| `Dialogs.TrimBlank` | src/components/EditTaskDialog.tsx:41 | A title is blank after trimming exactly when it holds nothing but whitespace. |
| `Dialogs.TrimIdempotent` | src/components/AddTaskDialog.tsx:31 | Trimming twice is trimming once. |
| `Dialogs.SubmitAdd` | src/components/AddTaskDialog.tsx:27-35 | The add dialog submits nothing exactly when the title is blank. Otherwise it submits the trimmed title and description with its column's stage. |
| `Dialogs.SubmitEdit` | src/components/EditTaskDialog.tsx:40-45 | The edit dialog saves nothing exactly when the title is blank. Otherwise it saves the title and description as typed. |
| `Dialogs.AddThroughDialog` | src/components/AddTaskDialog.tsx:27-35 | An add submitted through the dialog, joined to `addTask` under the assumed wiring (see "## Left out"). It has no contract of its own. `AddThroughDialogGuard` characterises it. |
| `Dialogs.EditThroughDialog` | src/components/EditTaskDialog.tsx:40-45 | An edit saved through the dialog, joined to `editTask` under the assumed wiring (see "## Left out"). It has no contract of its own. `EditThroughDialogGuard` characterises it. |
| `Dialogs.AddThroughDialogGuard` | src/components/AddTaskDialog.tsx:27-35 | A blank title leaves the list unchanged. An accepted add appends one task with the given id and stage, whose title is non-empty with no whitespace at either end. |
| `Dialogs.EditThroughDialogGuard` | src/components/EditTaskDialog.tsx:40-45 | A blank title leaves the list unchanged. An accepted edit is `Edited` with the title as typed, and that title holds a non-whitespace character. |

## Left out

- React context, hooks, render scheduling and `useTaskContext` (`TaskProvider.tsx:18`, `:155-180`): the state is the fields of one `TaskProvider` object, and each handler is a method that runs to completion. Every event is assumed to see the current state. The source's `handleDragOver` reads `tasks` from the render in which it was created, and that staleness is not modelled.
- `localStorage` and `JSON.parse`/`JSON.stringify` (`TaskProvider.tsx:37-38`, `:51`) are I/O. The constructor takes the already parsed list, with the empty list for "nothing saved". `SyncStorage` returns what would be written instead of writing it.
- `crypto.randomUUID()` (`TaskProvider.tsx:62`) is a source of randomness. `AddTask` takes the id as a parameter, and id uniqueness is proved only under the condition that this id is fresh.
- The guards that return when `taskIndex` or `targetIndex` is -1 (`TaskProvider.tsx:124`, `:137`) cannot fire, because `find` has just succeeded for both ids. The model leaves them out.
- dnd-kit (collision detection, sensors, measuring, the drag overlay in `src/App.tsx:41-86`) is external. The model takes the events it delivers as parameters. `arrayMove` is modelled by its remove-then-insert semantics on indices that are never negative here.
- Rendering, dialogs' open/close state, icons and theming (`src/components/*.tsx`, `src/main.tsx`) are presentation. Only the per-column filter and the blank-title guard are modelled.
- Dialogs.AddThroughDialog, Dialogs.EditThroughDialog: the connection from a dialog to the provider is assumed, not taken from the components. `Column` declares only `id` and `tasks` (`src/components/Column.tsx:11-16`), so the `onAddTask={addTask}` passed at `src/App.tsx:75` is dropped. `Column` then renders `<AddTaskButton stage={id} />` with no `onAddTask` (`src/components/Column.tsx:53`), so a non-blank add calls an undefined handler and adds nothing. `Task` passes `isOpen`, `onOpenChange` and `task` to `EditTaskDialog` (`src/components/Task.tsx:106-110`). That component expects `onClose`, `onSave`, `initialTitle` and `initialDescription` (`src/components/EditTaskDialog.tsx:14-20`), and nothing outside the provider calls `editTask`. The model joins each submit to the provider operation the prop names intend. It does not model the failing calls.
- Dialogs.TrimStart: JavaScript strings are sequences of UTF-16 code units while Dafny's `char` is a Unicode scalar value. The whitespace set is ECMAScript's full WhiteSpace and LineTerminator set, but surrogate pairs are not modelled.
